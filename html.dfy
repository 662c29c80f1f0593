/** The HTML reader of include/html_parser.h: a tree of tags built in one
    left-to-right pass over the positions of '<' and '>', with queries by
    tag name, by attribute value and by text content. */
module Html {
  import opened Utils
  import opened NlpUtils

  // ---------------------------------------------------------------------
  // The tree

  datatype HtmlNode = HtmlNode(
    nodes: seq<HtmlNode>,
    isSingle: bool,
    name: string,
    attributes: map<string, string>,
    content: string)
  {
    /** HTMLNode::find_by_tag: the nodes below this one named name. */
    function FindByTag(name: string): (r: seq<HtmlNode>)
      ensures forall m :: m in r <==> m in Descendants(this) && m.name == name
    {
      FindByTagInForest(nodes, name);
      SelectMembers(Forest(nodes), ByTag(name));
      FindByTagIn(nodes, name)
    }

    /** HTMLNode::find_by_attr: the nodes below this one with the tag name
        whose attribute reads as attrValue. */
    function FindByAttr(tagName: string, attrName: string, attrValue: string): (r: seq<HtmlNode>)
      ensures forall m :: m in r <==>
        m in Descendants(this) && m.name == tagName && AttrValue(m.attributes, attrName) == attrValue
    {
      FindByAttrInForest(nodes, tagName, attrName, attrValue);
      SelectMembers(Forest(nodes), ByAttr(tagName, attrName, attrValue));
      FindByAttrIn(nodes, tagName, attrName, attrValue)
    }

    /** HTMLNode::find_content: its own content when non-empty, then the
        contents found below it. */
    function FindContent(): (r: seq<string>)
      ensures forall c :: c in r ==> |c| > 0
      ensures |content| > 0 ==> |r| > 0 && r[0] == content
    {
      FindContentInForest(nodes);
      ContentsNonEmpty(Forest(nodes));
      OwnContent(this) + FindContentIn(nodes)
    }
  }

  /** HTMLNode(name, attributes): a single tag <.../>. */
  function SingleNode(name: string, attributes: map<string, string>): (n: HtmlNode)
    ensures n.isSingle && n.nodes == [] && n.content == ""
    ensures n.name == name && n.attributes == attributes
  {
    HtmlNode([], true, name, attributes, "")
  }

  /** HTMLNode(name, attributes, content): an open-close tag around text. */
  function ContentNode(name: string, attributes: map<string, string>, content: string): (n: HtmlNode)
    ensures !n.isSingle && n.nodes == [] && n.content == content
    ensures n.name == name && n.attributes == attributes
  {
    HtmlNode([], false, name, attributes, content)
  }

  /** HTMLNode(name, attributes, nodes): an open-close tag around subnodes.
      The attributes passed in are not kept. */
  function ParentNode(name: string, attributes: map<string, string>, nodes: seq<HtmlNode>): (n: HtmlNode)
    ensures !n.isSingle && n.nodes == nodes && n.content == ""
    ensures n.name == name && n.attributes == map[]
  {
    HtmlNode(nodes, false, name, map[], "")
  }

  /** std::map<std::wstring, std::wstring>::operator[] read: a missing
      attribute reads as the empty string. */
  function AttrValue(attributes: map<string, string>, attrName: string): (r: string)
    ensures attrName in attributes ==> r == attributes[attrName]
    ensures attrName !in attributes ==> r == ""
  {
    if attrName in attributes then attributes[attrName] else ""
  }

  /** The loop of find_by_tag over a list of children. */
  function FindByTagIn(ns: seq<HtmlNode>, name: string): seq<HtmlNode>
    decreases ns
  {
    if ns == [] then []
    else
      (if ns[0].name == name then [ns[0]] else [])
      + FindByTagIn(ns[0].nodes, name)
      + FindByTagIn(ns[1..], name)
  }

  /** The loop of find_by_attr over a list of children. */
  function FindByAttrIn(ns: seq<HtmlNode>, tagName: string, attrName: string, attrValue: string): seq<HtmlNode>
    decreases ns
  {
    if ns == [] then []
    else
      (if ns[0].name == tagName && AttrValue(ns[0].attributes, attrName) == attrValue then [ns[0]] else [])
      + FindByAttrIn(ns[0].nodes, tagName, attrName, attrValue)
      + FindByAttrIn(ns[1..], tagName, attrName, attrValue)
  }

  function OwnContent(n: HtmlNode): seq<string> {
    if |n.content| > 0 then [n.content] else []
  }

  /** The loop of find_content over a list of children. */
  function FindContentIn(ns: seq<HtmlNode>): seq<string>
    decreases ns
  {
    if ns == [] then []
    else OwnContent(ns[0]) + FindContentIn(ns[0].nodes) + FindContentIn(ns[1..])
  }

  // ---------------------------------------------------------------------
  // What the queries find, stated on the pre-order walk of the tree

  /** The nodes of a list of trees with everything below them, each node
      before its children and the children in order (pre-order). */
  function Forest(ns: seq<HtmlNode>): seq<HtmlNode>
    decreases ns
  {
    if ns == [] then [] else [ns[0]] + Forest(ns[0].nodes) + Forest(ns[1..])
  }

  /** The nodes strictly below n, in pre-order. */
  function Descendants(n: HtmlNode): seq<HtmlNode> {
    Forest(n.nodes)
  }

  datatype Query = ByTag(name: string) | ByAttr(tagName: string, attrName: string, attrValue: string)

  predicate Matches(n: HtmlNode, q: Query) {
    match q
    case ByTag(name) => n.name == name
    case ByAttr(tagName, attrName, attrValue) => n.name == tagName && AttrValue(n.attributes, attrName) == attrValue
  }

  /** The nodes of ns that answer q, in their order. */
  function Select(ns: seq<HtmlNode>, q: Query): seq<HtmlNode> {
    if ns == [] then [] else (if Matches(ns[0], q) then [ns[0]] else []) + Select(ns[1..], q)
  }

  lemma {:induction false} SelectMembers(ns: seq<HtmlNode>, q: Query)
    ensures forall m :: m in Select(ns, q) <==> m in ns && Matches(m, q)
  {
    if ns != [] {
      SelectMembers(ns[1..], q);
      assert ns == [ns[0]] + ns[1..];
    }
  }

  lemma {:induction false} SelectConcat(a: seq<HtmlNode>, b: seq<HtmlNode>, q: Query)
    ensures Select(a + b, q) == Select(a, q) + Select(b, q)
  {
    if a == [] {
      assert a + b == b;
    } else {
      var head := if Matches(a[0], q) then [a[0]] else [];
      SelectConcat(a[1..], b, q);
      assert (a + b)[0] == a[0];
      assert (a + b)[1..] == a[1..] + b;
      assert Select(a + b, q) == head + Select(a[1..] + b, q);
      assert Select(a, q) == head + Select(a[1..], q);
    }
  }

  function Contents(ns: seq<HtmlNode>): seq<string> {
    if ns == [] then [] else OwnContent(ns[0]) + Contents(ns[1..])
  }

  lemma {:induction false} ContentsConcat(a: seq<HtmlNode>, b: seq<HtmlNode>)
    ensures Contents(a + b) == Contents(a) + Contents(b)
    decreases |a|
  {
    if a != [] {
      var ab := a + b;
      assert ab[0] == a[0] && ab[1..] == a[1..] + b;
      ContentsConcat(a[1..], b);
    } else {
      assert a + b == b;
    }
  }

  lemma {:induction false} FindByTagInForest(ns: seq<HtmlNode>, name: string)
    ensures FindByTagIn(ns, name) == Select(Forest(ns), ByTag(name))
    decreases ns
  {
    if ns != [] {
      FindByTagInForest(ns[0].nodes, name);
      FindByTagInForest(ns[1..], name);
      SelectConcat([ns[0]] + Forest(ns[0].nodes), Forest(ns[1..]), ByTag(name));
      SelectConcat([ns[0]], Forest(ns[0].nodes), ByTag(name));
    }
  }

  lemma {:induction false} FindByAttrInForest(ns: seq<HtmlNode>, tagName: string, attrName: string, attrValue: string)
    ensures FindByAttrIn(ns, tagName, attrName, attrValue) == Select(Forest(ns), ByAttr(tagName, attrName, attrValue))
    decreases ns
  {
    if ns != [] {
      var q := ByAttr(tagName, attrName, attrValue);
      FindByAttrInForest(ns[0].nodes, tagName, attrName, attrValue);
      FindByAttrInForest(ns[1..], tagName, attrName, attrValue);
      SelectConcat([ns[0]] + Forest(ns[0].nodes), Forest(ns[1..]), q);
      SelectConcat([ns[0]], Forest(ns[0].nodes), q);
    }
  }

  lemma {:induction false} FindContentInForest(ns: seq<HtmlNode>)
    ensures FindContentIn(ns) == Contents(Forest(ns))
    decreases ns
  {
    if ns != [] {
      FindContentInForest(ns[0].nodes);
      FindContentInForest(ns[1..]);
      ContentsConcat([ns[0]] + Forest(ns[0].nodes), Forest(ns[1..]));
      ContentsConcat([ns[0]], Forest(ns[0].nodes));
    }
  }

  /** find_by_tag returns exactly the strict descendants with that name,
      in pre-order. */
  lemma FindByTagIsPreorder(n: HtmlNode, name: string)
    ensures n.FindByTag(name) == Select(Descendants(n), ByTag(name))
    ensures forall m :: m in n.FindByTag(name) <==> m in Descendants(n) && m.name == name
  {
    FindByTagInForest(n.nodes, name);
    SelectMembers(Descendants(n), ByTag(name));
  }

  /** find_by_attr returns exactly the strict descendants with that tag
      name whose attribute reads as attrValue, a missing attribute reading
      as "", in pre-order. */
  lemma FindByAttrIsPreorder(n: HtmlNode, tagName: string, attrName: string, attrValue: string)
    ensures n.FindByAttr(tagName, attrName, attrValue) == Select(Descendants(n), ByAttr(tagName, attrName, attrValue))
    ensures forall m :: m in n.FindByAttr(tagName, attrName, attrValue) <==>
      m in Descendants(n) && m.name == tagName && AttrValue(m.attributes, attrName) == attrValue
  {
    FindByAttrInForest(n.nodes, tagName, attrName, attrValue);
    SelectMembers(Descendants(n), ByAttr(tagName, attrName, attrValue));
  }

  /** find_content returns the non-empty contents of the node itself and
      of everything below it, in pre-order. */
  lemma FindContentIsPreorder(n: HtmlNode)
    ensures n.FindContent() == Contents([n] + Descendants(n))
    ensures forall c :: c in n.FindContent() ==> |c| > 0
  {
    FindContentInForest(n.nodes);
    ContentsConcat([n], Descendants(n));
    ContentsNonEmpty([n] + Descendants(n));
  }

  lemma {:induction false} ContentsNonEmpty(ns: seq<HtmlNode>)
    ensures forall c :: c in Contents(ns) ==> |c| > 0
  {
    if ns != [] {
      ContentsNonEmpty(ns[1..]);
    }
  }

  // ---------------------------------------------------------------------
  // Character positions

  /** The positions of c in s, in increasing order: find_all with a
      one-character pattern. */
  function CharPositions(s: string, c: char): seq<nat> {
    if s == [] then []
    else
      var init := CharPositions(s[..|s| - 1], c);
      if s[|s| - 1] == c then init + [|s| - 1] else init
  }

  lemma {:induction false} CharPositionsMeaning(s: string, c: char)
    ensures Increasing(CharPositions(s, c))
    ensures forall p: nat :: p in CharPositions(s, c) <==> p < |s| && s[p] == c
    ensures forall i :: 0 <= i < |CharPositions(s, c)| ==> CharPositions(s, c)[i] < |s| && s[CharPositions(s, c)[i]] == c
  {
    if s != [] {
      var init := CharPositions(s[..|s| - 1], c);
      CharPositionsMeaning(s[..|s| - 1], c);
      if s[|s| - 1] == c {
        IncreasingAppend(init, |s| - 1);
      }
    }
  }

  lemma IncreasingTail(a: seq<nat>)
    requires Increasing(a) && a != []
    ensures Increasing(a[1..])
    ensures forall x :: x in a[1..] <==> x in a && x != a[0]
  {
    forall x | x in a && x != a[0] ensures x in a[1..] {
      var i :| 0 <= i < |a| && a[i] == x;
      assert a[1..][i - 1] == x;
    }
  }

  /** An increasing sequence is determined by its elements. */
  lemma HeadIsLeast(a: seq<nat>)
    requires Increasing(a) && a != []
    ensures forall x :: x in a ==> a[0] <= x
  {
    forall x | x in a ensures a[0] <= x {
      var i :| 0 <= i < |a| && a[i] == x;
      if i > 0 {
        assert a[0] < a[i];
      }
    }
  }

  lemma {:induction false} IncreasingUnique(a: seq<nat>, b: seq<nat>)
    requires Increasing(a) && Increasing(b)
    requires forall x :: x in a <==> x in b
    ensures a == b
    decreases |a|
  {
    assert forall k :: 0 <= k < |b| ==> b[k] in a;
    assert forall k :: 0 <= k < |a| ==> a[k] in b;
    if a != [] && b != [] {
      HeadIsLeast(a);
      HeadIsLeast(b);
      assert a[0] in b && b[0] in a;
      assert a[0] == b[0];
      IncreasingTail(a);
      IncreasingTail(b);
      IncreasingUnique(a[1..], b[1..]);
      assert a == [a[0]] + a[1..];
      assert b == [b[0]] + b[1..];
    }
  }

  /** find_all with a one-character pattern yields CharPositions. */
  lemma FindAllChar(s: string, c: char, r: seq<nat>)
    requires Increasing(r)
    requires forall p: nat :: p in r <==> MatchAt(s, [c], p)
    ensures r == CharPositions(s, c)
  {
    CharPositionsMeaning(s, c);
    forall p: nat ensures p in r <==> p in CharPositions(s, c) {
      if p < |s| {
        assert s[p..p + 1] == [s[p]];
      }
    }
    IncreasingUnique(r, CharPositions(s, c));
  }

  /** std::wstring::operator[]: position |s| holds the terminating NUL. */
  function CharAt(s: string, i: nat): char
    requires i <= |s|
  {
    if i < |s| then s[i] else '\0'
  }

  /** std::wstring::substr(pos, count): the count is clamped to the end of
      the string. */
  function Substr(s: string, pos: nat, count: nat): string
    requires pos <= |s|
  {
    s[pos..if pos + count <= |s| then pos + count else |s|]
  }

  // ---------------------------------------------------------------------
  // get_attributes

  /** The i-th quote pair, from the (2i)-th quote up to, not including,
      the (2i+1)-th, covers p. */
  predicate InPair(quotes: seq<nat>, i: nat, p: int)
    requires 2 * i + 1 < |quotes|
  {
    quotes[2 * i] <= p < quotes[2 * i + 1]
  }

  /** Position p lies inside one of the first k quote pairs. */
  ghost predicate Quoted(quotes: seq<nat>, k: nat, p: int)
    requires 2 * k <= |quotes|
  {
    exists i: nat :: i < k && InPair(quotes, i, p)
  }

  /** std::fill(mask + b, mask + e, true). */
  function Fill(mask: seq<bool>, b: int, e: int): (r: seq<bool>)
    ensures |r| == |mask|
  {
    seq(|mask|, p requires 0 <= p < |mask| => (b <= p < e) || mask[p])
  }

  /** The quote mask once the first k quote pairs have been filled in. */
  function MaskAfter(len: nat, quotes: seq<nat>, k: nat): (r: seq<bool>)
    requires 2 * k <= |quotes|
    ensures |r| == len
  {
    if k == 0 then seq(len, _ => false)
    else Fill(MaskAfter(len, quotes, k - 1), quotes[2 * k - 2], quotes[2 * k - 1])
  }

  /** A position is masked exactly when it lies inside a quote pair. */
  lemma {:induction false} MaskAfterMeaning(len: nat, quotes: seq<nat>, k: nat)
    requires 2 * k <= |quotes|
    ensures forall p :: 0 <= p < len ==> (MaskAfter(len, quotes, k)[p] <==> Quoted(quotes, k, p))
  {
    if k > 0 {
      MaskAfterMeaning(len, quotes, k - 1);
      forall p | 0 <= p < len ensures MaskAfter(len, quotes, k)[p] <==> Quoted(quotes, k, p) {
        if InPair(quotes, k - 1, p) {
          assert Quoted(quotes, k, p);
        } else if Quoted(quotes, k, p) {
          var i: nat :| i < k && InPair(quotes, i, p);
          assert Quoted(quotes, k - 1, p);
        }
      }
    }
  }

  /** The spaces of ps that lie outside the mask, in their order. */
  function Unmasked(ps: seq<nat>, mask: seq<bool>): seq<nat> {
    if ps == [] then []
    else
      var last := ps[|ps| - 1];
      Unmasked(ps[..|ps| - 1], mask) + (if last < |mask| && mask[last] then [] else [last])
  }

  lemma {:induction false} UnmaskedMembers(ps: seq<nat>, mask: seq<bool>)
    requires forall i :: 0 <= i < |ps| ==> ps[i] < |mask|
    ensures forall x :: x in Unmasked(ps, mask) <==> x in ps && !mask[x]
  {
    if ps != [] {
      UnmaskedMembers(ps[..|ps| - 1], mask);
      assert ps == ps[..|ps| - 1] + [ps[|ps| - 1]];
    }
  }

  lemma {:induction false} UnmaskedIncreasing(ps: seq<nat>, mask: seq<bool>)
    requires forall i :: 0 <= i < |ps| ==> ps[i] < |mask|
    requires Increasing(ps)
    ensures Increasing(Unmasked(ps, mask))
  {
    if ps != [] {
      var init := ps[..|ps| - 1];
      var last := ps[|ps| - 1];
      UnmaskedIncreasing(init, mask);
      UnmaskedMembers(init, mask);
      if !mask[last] {
        forall k | k in Unmasked(init, mask) ensures k < last {
          var i :| 0 <= i < |init| && init[i] == k;
        }
        IncreasingAppend(Unmasked(init, mask), last);
      }
    }
  }

  /** substrBounds of get_attributes: -1, the spaces outside quotes, and
      the length of the attribute text. */
  function Bounds(attrs: string): (r: seq<int>)
    ensures |r| >= 2
  {
    var quotes := CharPositions(attrs, '"');
    var mask := MaskAfter(|attrs|, quotes, |quotes| / 2);
    Framed(Unmasked(CharPositions(attrs, ' '), mask), |attrs|)
  }

  /** Bounds that cut the attribute text into consecutive pieces. */
  ghost predicate BoundsOk(attrs: string, bounds: seq<int>) {
    && |bounds| >= 2
    && bounds[0] == -1
    && bounds[|bounds| - 1] == |attrs|
    && forall i, j :: 0 <= i < j < |bounds| ==> bounds[i] < bounds[j]
  }

  /** -1, the elements of inner, then len. */
  function Framed(inner: seq<nat>, len: nat): (r: seq<int>)
    ensures |r| == |inner| + 2
  {
    var first: seq<int> := [-1];
    first + inner + [len]
  }

  lemma FramedIncreasing(inner: seq<nat>, len: nat)
    requires Increasing(inner)
    requires forall k :: 0 <= k < |inner| ==> inner[k] < len
    ensures forall i, j :: 0 <= i < j < |Framed(inner, len)| ==> Framed(inner, len)[i] < Framed(inner, len)[j]
  {
    var b := Framed(inner, len);
    forall i, j | 0 <= i < j < |b| ensures b[i] < b[j] {
      if 0 < i && j < |b| - 1 {
        assert b[i] == inner[i - 1] && b[j] == inner[j - 1];
      } else if 0 < j < |b| - 1 {
        assert b[j] == inner[j - 1];
      } else if 0 < i < |b| - 1 {
        assert b[i] == inner[i - 1];
      }
    }
  }

  /** The bounds are -1, then exactly the spaces outside quote pairs in
      increasing order, then the length: a space inside quotes never
      splits an attribute. */
  lemma BoundsMeaning(attrs: string)
    ensures BoundsOk(attrs, Bounds(attrs))
    ensures var quotes := CharPositions(attrs, '"');
      forall p :: 0 <= p < |attrs| ==>
        (p in Bounds(attrs) <==> attrs[p] == ' ' && !Quoted(quotes, |quotes| / 2, p))
  {
    var quotes := CharPositions(attrs, '"');
    var mask := MaskAfter(|attrs|, quotes, |quotes| / 2);
    var spaces := CharPositions(attrs, ' ');
    CharPositionsMeaning(attrs, ' ');
    var inner := Unmasked(spaces, mask);
    UnmaskedMembers(spaces, mask);
    MaskAfterMeaning(|attrs|, quotes, |quotes| / 2);
    UnmaskedIncreasing(spaces, mask);
    assert forall k :: 0 <= k < |inner| ==> inner[k] in spaces;
    FramedIncreasing(inner, |attrs|);
  }

  /** The i-th attribute piece, from just after bound i-1 up to and
      including bound i (a trailing space stays in the piece). */
  function Piece(attrs: string, bounds: seq<int>, i: nat): string
    requires 1 <= i < |bounds|
  {
    var substrBegin := bounds[i - 1] + 1;
    var substrLen := bounds[i] - substrBegin + 1;
    if 0 <= substrBegin <= |attrs| && 0 <= substrLen then Substr(attrs, substrBegin, substrLen) else ""
  }

  lemma PieceInside(attrs: string, bounds: seq<int>, i: nat)
    requires BoundsOk(attrs, bounds) && 1 <= i < |bounds|
    ensures 0 <= bounds[i - 1] + 1 <= bounds[i] <= |attrs|
  {
    if i - 1 > 0 {
      assert bounds[0] < bounds[i - 1];
    }
    if i < |bounds| - 1 {
      assert bounds[i] < bounds[|bounds| - 1];
    }
  }

  /** The attribute name: the piece up to its first '=', or all of it. */
  function AttrName(attr: string): string {
    var delimPos := FindChar(attr, '=', 0);
    if delimPos == -1 then attr else attr[..delimPos]
  }

  /** A piece with at least two quote marks carries a value. */
  predicate HasValue(attr: string) {
    |CharPositions(attr, '"')| > 1
  }

  /** The value of a piece with two quote marks: get_substr from just
      after the first quote to just before the second. */
  function ValueOf(attr: string): string {
    var quotesInline := CharPositions(attr, '"');
    if |quotesInline| > 1 && quotesInline[0] < |attr|
    then GetSubstr(attr, quotesInline[0] + 1, SizeT(quotesInline[1] as int - 1))
    else ""
  }

  /** The attributes of the first k-1 pieces, later names overwriting
      earlier ones. */
  ghost function AttrsUpTo(attrs: string, bounds: seq<int>, k: nat): map<string, string>
    requires 1 <= k <= |bounds|
  {
    if k == 1 then map[]
    else
      var m := AttrsUpTo(attrs, bounds, k - 1);
      var attr := Piece(attrs, bounds, k - 1);
      if HasValue(attr) then m[AttrName(attr) := ValueOf(attr)] else m
  }

  /** get_attributes on the text after the separating space. */
  ghost function AttributesOf(attrs: string): map<string, string> {
    var bounds := Bounds(attrs);
    AttrsUpTo(attrs, bounds, |bounds|)
  }

  /** get_attributes(rawname, sep). */
  ghost function Attributes(rawname: string, sep: nat): map<string, string>
    requires sep < |rawname|
  {
    AttributesOf(GetSubstr(rawname, sep + 1, SizeT(|rawname| - 1)))
  }

  /** A piece carries a value exactly when it holds two quote marks. */
  lemma HasValueMeaning(attr: string)
    ensures HasValue(attr) <==> exists i, j :: 0 <= i < j < |attr| && attr[i] == '"' && attr[j] == '"'
  {
    var q := CharPositions(attr, '"');
    CharPositionsMeaning(attr, '"');
    if exists i, j :: 0 <= i < j < |attr| && attr[i] == '"' && attr[j] == '"' {
      var i, j :| 0 <= i < j < |attr| && attr[i] == '"' && attr[j] == '"';
      assert i in q && j in q;
      var a :| 0 <= a < |q| && q[a] == i;
      var b :| 0 <= b < |q| && q[b] == j;
      assert a != b;
    }
    if HasValue(attr) {
      assert q[0] < q[1];
    }
  }

  /** The value is the text strictly between the first two quote marks. */
  lemma ValueBetweenQuotes(attr: string)
    requires |attr| < SIZE_T_MOD && HasValue(attr)
    ensures var v := ValueOf(attr);
      && '"' !in v
      && exists i :: 0 <= i && i + |v| + 1 < |attr| && attr[i] == '"' && '"' !in attr[..i]
           && attr[i + 1..i + 1 + |v|] == v && attr[i + 1 + |v|] == '"'
  {
    var q := CharPositions(attr, '"');
    CharPositionsMeaning(attr, '"');
    assert q[0] < q[1];
    GetSubstrInclusive(attr, q[0] + 1, q[1] - 1);
    forall x | 0 <= x < q[1] && x != q[0] ensures attr[x] != '"' {
      assert forall k :: 0 <= k < |q| ==> q[k] != x;
    }
    assert ValueOf(attr) == attr[q[0] + 1..q[1]];
  }

  /** Every value get_attributes stores is free of quote marks. */
  lemma AttributesUnquoted(attrs: string)
    requires |attrs| < SIZE_T_MOD
    ensures forall k :: k in AttributesOf(attrs) ==> '"' !in AttributesOf(attrs)[k]
  {
    BoundsMeaning(attrs);
    var bounds := Bounds(attrs);
    AttrsUpToUnquoted(attrs, bounds, |bounds|);
  }

  lemma {:induction false} AttrsUpToUnquoted(attrs: string, bounds: seq<int>, k: nat)
    requires |attrs| < SIZE_T_MOD
    requires BoundsOk(attrs, bounds) && 1 <= k <= |bounds|
    ensures forall key :: key in AttrsUpTo(attrs, bounds, k) ==> '"' !in AttrsUpTo(attrs, bounds, k)[key]
  {
    if k > 1 {
      AttrsUpToUnquoted(attrs, bounds, k - 1);
      var attr := Piece(attrs, bounds, k - 1);
      if HasValue(attr) {
        ValueBetweenQuotes(attr);
      }
    }
  }

  // ---------------------------------------------------------------------
  // get_name_attr

  /** get_name_attr(rawhtml, beginIndex, endIndex): the tag text from
      beginIndex to endIndex, split at its first space into the name and
      the attributes. */
  ghost function NameAttr(rawhtml: string, beginIndex: nat, endIndex: nat): (string, map<string, string>)
    requires beginIndex <= |rawhtml|
  {
    var rawname := GetSubstr(rawhtml, beginIndex, endIndex);
    var sep := FindChar(rawname, ' ', 0);
    if sep != -1 then (GetSubstr(rawname, 0, SizeT(sep - 1)), Attributes(rawname, sep))
    else (rawname, map[])
  }

  /** The name is the tag text before its first space, the whole text when
      it has none, and never holds a space. */
  lemma NameAttrName(rawhtml: string, beginIndex: nat, endIndex: nat)
    requires |rawhtml| < SIZE_T_MOD && beginIndex <= |rawhtml|
    ensures var rawname := GetSubstr(rawhtml, beginIndex, endIndex);
      var name := NameAttr(rawhtml, beginIndex, endIndex).0;
      && ' ' !in name
      && (' ' !in rawname ==> name == rawname)
      && (' ' in rawname ==> |name| < |rawname| && rawname[|name|] == ' ' && name == rawname[..|name|])
  {
    var rawname := GetSubstr(rawhtml, beginIndex, endIndex);
    var sep := FindChar(rawname, ' ', 0);
    assert |rawname| <= |rawhtml|;
    if sep != -1 {
      GetSubstrInclusive(rawname, 0, sep - 1);
      assert GetSubstr(rawname, 0, SizeT(sep - 1)) == rawname[..sep];
    }
  }

  /** The attributes are parsed from the text after the first space, and
      there are none when the tag text has no space. */
  lemma NameAttrAttributes(rawhtml: string, beginIndex: nat, endIndex: nat)
    requires |rawhtml| < SIZE_T_MOD && beginIndex <= |rawhtml|
    ensures var rawname := GetSubstr(rawhtml, beginIndex, endIndex);
      var r := NameAttr(rawhtml, beginIndex, endIndex);
      && (' ' !in rawname ==> r.1 == map[])
      && (' ' in rawname ==> |r.0| < |rawname| && r.1 == AttributesOf(rawname[|r.0| + 1..]))
  {
    var rawname := GetSubstr(rawhtml, beginIndex, endIndex);
    var sep := FindChar(rawname, ' ', 0);
    if sep != -1 {
      NameAttrSplit(rawhtml, beginIndex, endIndex, rawname, sep);
      assert rawname[sep] == ' ';
    } else {
      assert ' ' !in rawname;
    }
  }

  /** Split at the first space at sep: the name is the sep characters
      before it and the attributes come from the text after it. */
  lemma NameAttrSplit(rawhtml: string, beginIndex: nat, endIndex: nat, rawname: string, sep: int)
    requires |rawhtml| < SIZE_T_MOD && beginIndex <= |rawhtml|
    requires rawname == GetSubstr(rawhtml, beginIndex, endIndex) && sep == FindChar(rawname, ' ', 0) != -1
    ensures |NameAttr(rawhtml, beginIndex, endIndex).0| == sep
    ensures NameAttr(rawhtml, beginIndex, endIndex).1 == AttributesOf(rawname[sep + 1..])
  {
    assert |rawname| <= |rawhtml|;
    GetSubstrInclusive(rawname, 0, sep - 1);
    AttributesAfter(rawname, sep);
  }

  lemma AttributesAfter(rawname: string, sep: nat)
    requires |rawname| < SIZE_T_MOD && sep < |rawname|
    ensures Attributes(rawname, sep) == AttributesOf(rawname[sep + 1..])
  {
    GetSubstrInclusive(rawname, sep + 1, |rawname| - 1);
    assert GetSubstr(rawname, sep + 1, SizeT(|rawname| - 1)) == rawname[sep + 1..];
  }

  // ---------------------------------------------------------------------
  // HTMLParser

  /** The text the parser works on: every "<br/>" replaced by a newline. */
  function Prepared(rawhtml: string): string {
    ReplaceWith(rawhtml, "<br/>", "\n")
  }

  /** No "<br/>" is left in the text the parser works on. */
  lemma PreparedHasNoBreak(rawhtml: string)
    ensures forall q: nat :: !MatchAt(Prepared(rawhtml), "<br/>", q)
  {
    ReplaceLeavesNoMatch(rawhtml, "<br/>", "\n");
  }

  /** The constructor's reads stay inside the text: there are at least as
      many '>' as '<', and none of the '>' it looks behind is the first
      character. */
  predicate BracketsReadable(rawhtml: string) {
    var s := Prepared(rawhtml);
    var less := CharPositions(s, '<');
    var more := CharPositions(s, '>');
    |less| <= |more| && forall i :: 0 <= i < |less| ==> more[i] >= 1
  }

  /** The fields the HTMLParser constructor computes. */
  datatype Scan = Scan(
    rawhtml: string,
    lessSign: seq<nat>,
    moreSign: seq<nat>,
    isLessSignClosing: seq<bool>,
    isMoreSignClosing: seq<bool>)

  function ScanFor(rawhtml: string): Scan
    requires BracketsReadable(rawhtml)
  {
    var s := Prepared(rawhtml);
    CharPositionsMeaning(s, '<');
    CharPositionsMeaning(s, '>');
    var less := CharPositions(s, '<');
    var more := CharPositions(s, '>');
    Scan(s, less, more,
      seq(|less|, i requires 0 <= i < |less| => CharAt(s, less[i] + 1) == '/'),
      seq(|less|, i requires 0 <= i < |less| => s[more[i] - 1] == '/'))
  }

  /** The shape of the fields that parse_subnodes relies on. */
  ghost predicate ScanOk(sc: Scan) {
    && |sc.isLessSignClosing| == |sc.lessSign|
    && |sc.isMoreSignClosing| == |sc.lessSign|
    && |sc.lessSign| <= |sc.moreSign|
    && (forall i :: 0 <= i < |sc.moreSign| ==> sc.moreSign[i] < |sc.rawhtml|)
    && (forall i :: 0 <= i < |sc.lessSign| ==> sc.lessSign[i] < |sc.rawhtml|)
    && (forall i :: 0 <= i < |sc.lessSign| && sc.isLessSignClosing[i] ==> sc.lessSign[i] + 1 < |sc.rawhtml|)
  }

  /** The tag-position flags: the i-th '<' opens a closing tag when the
      character after it is '/', the i-th '>' ends a single tag when the
      character before it is '/'. */
  lemma ScanForMeaning(rawhtml: string)
    requires BracketsReadable(rawhtml)
    ensures var sc := ScanFor(rawhtml);
      && ScanOk(sc)
      && sc.rawhtml == Prepared(rawhtml)
      && (forall p: nat :: p in sc.lessSign <==> p < |sc.rawhtml| && sc.rawhtml[p] == '<')
      && (forall p: nat :: p in sc.moreSign <==> p < |sc.rawhtml| && sc.rawhtml[p] == '>')
      && (forall i :: 0 <= i < |sc.lessSign| ==>
            (sc.isLessSignClosing[i] <==> sc.lessSign[i] + 1 < |sc.rawhtml| && sc.rawhtml[sc.lessSign[i] + 1] == '/'))
      && (forall i :: 0 <= i < |sc.lessSign| ==>
            (sc.isMoreSignClosing[i] <==> 1 <= sc.moreSign[i] && sc.rawhtml[sc.moreSign[i] - 1] == '/'))
  {
    CharPositionsMeaning(Prepared(rawhtml), '<');
    CharPositionsMeaning(Prepared(rawhtml), '>');
  }

  /** The name and attributes get_name_attr reads from a tag. */
  datatype TagText = TagText(name: string, attributes: map<string, string>)

  /** The text of tag idx as parse_subnodes reads it: after "</" up to the
      '>' for a closing tag, after '<' up to "/>" for a single tag, after
      '<' up to '>' otherwise. */
  ghost function TagTextAt(sc: Scan, idx: nat): TagText
    requires ScanOk(sc) && idx < |sc.lessSign|
  {
    var na := NameAttr(sc.rawhtml, sc.lessSign[idx] + TagBegin(sc, idx), TagEnd(sc, idx));
    TagText(na.0, na.1)
  }

  /** Where the text of tag idx starts, after its '<'. */
  function TagBegin(sc: Scan, idx: nat): nat
    requires ScanOk(sc) && idx < |sc.lessSign|
  {
    if sc.isLessSignClosing[idx] then 2 else 1
  }

  /** The size_t index where the text of tag idx ends, before its '>'. */
  function TagEnd(sc: Scan, idx: nat): nat
    requires ScanOk(sc) && idx < |sc.lessSign|
  {
    if !sc.isLessSignClosing[idx] && sc.isMoreSignClosing[idx] then SizeT(sc.moreSign[idx] as int - 2)
    else SizeT(sc.moreSign[idx] as int - 1)
  }

  /** What get_name_attr returns for tag idx is the tag's text. */
  lemma TagTextIs(sc: Scan, tags: seq<TagText>, idx: nat, rawhtml: string, beginIndex: nat, endIndex: nat,
                  name: string, attributes: map<string, string>)
    requires TagsRead(sc, tags) && idx < |tags|
    requires rawhtml == sc.rawhtml && beginIndex == sc.lessSign[idx] + TagBegin(sc, idx) && endIndex == TagEnd(sc, idx)
    requires beginIndex <= |rawhtml| && (name, attributes) == NameAttr(rawhtml, beginIndex, endIndex)
    ensures tags[idx] == TagText(name, attributes)
  {
    assert TagRead(sc, tags, idx);
  }

  /** The texts of all tags, in order. */
  ghost function TagTexts(sc: Scan): (r: seq<TagText>)
    requires ScanOk(sc)
    ensures |r| == |sc.lessSign|
  {
    seq(|sc.lessSign|, i requires 0 <= i < |sc.lessSign| => TagTextAt(sc, i))
  }

  /** tags[i] is the text of tag i. */
  ghost predicate TagRead(sc: Scan, tags: seq<TagText>, i: nat)
    requires ScanOk(sc) && |tags| == |sc.lessSign| && i < |tags|
  {
    tags[i] == TagTextAt(sc, i)
  }

  /** tags holds the text of every tag, each looked at only when its
      index is named. */
  ghost predicate TagsRead(sc: Scan, tags: seq<TagText>) {
    && ScanOk(sc)
    && |tags| == |sc.lessSign|
    && forall i {:trigger TagRead(sc, tags, i)} :: 0 <= i < |tags| ==> TagRead(sc, tags, i)
  }

  lemma TagTextsRead(sc: Scan)
    requires ScanOk(sc)
    ensures TagsRead(sc, TagTexts(sc))
  {
  }

  /** parse_subnodes entered with the cursor at idx inside the tag
      openTagName, nodes collected so far, tags[i] the text of tag i: the
      nodes of that level and where the cursor stops, at the tag that
      closes openTagName or past the last tag. None where the source reads
      a '<' position past the last one (an open tag still unclosed at the
      end). */
  ghost function ParseFrom(sc: Scan, tags: seq<TagText>, idx: nat, openTagName: string, nodes: seq<HtmlNode>): (r: Option<(seq<HtmlNode>, nat)>)
    requires ScanOk(sc) && |tags| == |sc.lessSign|
    ensures r.Some? ==> idx <= r.value.1 && (idx <= |sc.lessSign| ==> r.value.1 <= |sc.lessSign|)
    decreases |sc.lessSign| - idx, 1
  {
    if idx >= |sc.lessSign| then Some((nodes, idx))
    else if sc.isLessSignClosing[idx] && openTagName == tags[idx].name then Some((nodes, idx))
    else
      var step := ParseTag(sc, tags, idx);
      if step.None? then None
      else ParseFrom(sc, tags, step.value.1, openTagName, nodes + step.value.0)
  }

  /** One pass of the loop of parse_subnodes over tag idx when that tag
      does not close the level: the nodes it adds and the cursor after it.
      A closing tag of another name adds nothing; a single tag adds a
      leaf; an opening tag adds a parent node over the level below it, or,
      when that level is empty, a content node holding the text between
      the '>' before the cursor and the next '<'. The cursor is left where
      the level below stopped, on the closing tag it met. */
  ghost function ParseTag(sc: Scan, tags: seq<TagText>, idx: nat): (r: Option<(seq<HtmlNode>, nat)>)
    requires ScanOk(sc) && |tags| == |sc.lessSign| && idx < |sc.lessSign|
    ensures r.Some? ==> idx < r.value.1 <= |sc.lessSign|
    decreases |sc.lessSign| - idx, 0
  {
    var tag := tags[idx];
    if sc.isLessSignClosing[idx] then Some(([], idx + 1))
    else if sc.isMoreSignClosing[idx] then Some(([SingleNode(tag.name, tag.attributes)], idx + 1))
    else
      var sub := ParseFrom(sc, tags, idx + 1, tag.name, []);
      if sub.None? then None
      else
        var j := sub.value.1;
        if |sub.value.0| > 0 then Some(([ParentNode(tag.name, tag.attributes, sub.value.0)], j))
        else if j < |sc.lessSign| then
          Some(([ContentNode(tag.name, tag.attributes, GetSubstr(sc.rawhtml, sc.moreSign[j - 1] + 1, SizeT(sc.lessSign[j] as int - 1)))], j))
        else None
  }

  /** One pass of the loop of parse_subnodes over a tag that does not
      close the level. */
  lemma ParseFromStep(sc: Scan, tags: seq<TagText>, idx: nat, openTagName: string, nodes: seq<HtmlNode>)
    requires ScanOk(sc) && |tags| == |sc.lessSign| && idx < |sc.lessSign|
    requires !(sc.isLessSignClosing[idx] && openTagName == tags[idx].name)
    ensures var step := ParseTag(sc, tags, idx);
      ParseFrom(sc, tags, idx, openTagName, nodes) ==
        if step.None? then None else ParseFrom(sc, tags, step.value.1, openTagName, nodes + step.value.0)
  {
  }

  /** An opening tag whose level parses: the level below it parses, and
      stops before the last tag when it holds no nodes. */
  lemma ParseTagOpen(sc: Scan, tags: seq<TagText>, idx: nat)
    requires ScanOk(sc) && |tags| == |sc.lessSign| && idx < |sc.lessSign|
    requires !sc.isLessSignClosing[idx] && !sc.isMoreSignClosing[idx]
    requires ParseTag(sc, tags, idx).Some?
    ensures var sub := ParseFrom(sc, tags, idx + 1, tags[idx].name, []);
      && sub.Some?
      && (|sub.value.0| == 0 ==> sub.value.1 < |sc.lessSign|)
      && ParseTag(sc, tags, idx) == Some((
           if |sub.value.0| > 0 then [ParentNode(tags[idx].name, tags[idx].attributes, sub.value.0)]
           else [ContentNode(tags[idx].name, tags[idx].attributes,
                   GetSubstr(sc.rawhtml, sc.moreSign[sub.value.1 - 1] + 1, SizeT(sc.lessSign[sub.value.1] as int - 1)))],
           sub.value.1))
  {
  }

  /** parse: the nodes of the top level, the parse starting after the first
      tag (the doctype), so a text with at most one tag has no nodes. */
  ghost function ParseHtml(rawhtml: string): (r: Option<seq<HtmlNode>>)
    requires BracketsReadable(rawhtml)
    ensures |CharPositions(Prepared(rawhtml), '<')| <= 1 ==> r == Some([])
  {
    ScanForMeaning(rawhtml);
    var sc := ScanFor(rawhtml);
    var r := ParseFrom(sc, TagTexts(sc), 1, "", []);
    if r.Some? then Some(r.value.0) else None
  }

  class HtmlParser {
    var nodeIndex: int
    const nodeCount: int
    const rawhtml: string
    const lessSign: seq<nat>
    const moreSign: seq<nat>
    const isLessSignClosing: seq<bool>
    const isMoreSignClosing: seq<bool>
    /** The text of every tag, as parse_subnodes reads it. */
    ghost const tagTexts: seq<TagText>

    ghost function ScanOf(): Scan {
      Scan(rawhtml, lessSign, moreSign, isLessSignClosing, isMoreSignClosing)
    }

    ghost predicate Valid() {
      nodeCount == |lessSign| && ScanOk(ScanOf()) && TagsRead(ScanOf(), tagTexts)
    }

    /** HTMLParser(rawhtml): the text with "<br/>" replaced, the positions
        of '<' and '>', and the two flag vectors. */
    constructor (source: string)
      requires BracketsReadable(source)
      ensures ScanOf() == ScanFor(source)
      ensures Valid() && tagTexts == TagTexts(ScanOf())
    {
      var s := ReplaceWith(source, "<br/>", "\n");
      var less := FindAll(s, "<");
      FindAllChar(s, '<', less);
      var more := FindAll(s, ">");
      FindAllChar(s, '>', more);
      var n := |less|;
      CharPositionsMeaning(s, '<');
      CharPositionsMeaning(s, '>');
      var lessClosing := LessSignFlags(s, less);
      var moreClosing := MoreSignFlags(s, more, n);
      rawhtml := s;
      lessSign := less;
      moreSign := more;
      nodeCount := n;
      isLessSignClosing := lessClosing;
      isMoreSignClosing := moreClosing;
      nodeIndex := 0;
      ScanForMeaning(source);
      tagTexts := TagTexts(ScanFor(source));
      TagTextsRead(ScanFor(source));
    }

    /** The loop of the constructor over the '<' positions. */
    static method LessSignFlags(s: string, less: seq<nat>) returns (flags: seq<bool>)
      requires forall k :: 0 <= k < |less| ==> less[k] < |s|
      ensures flags == seq(|less|, k requires 0 <= k < |less| => CharAt(s, less[k] + 1) == '/')
    {
      var n := |less|;
      flags := seq(n, _ => false);
      var i := 0;
      while i < n
        invariant 0 <= i <= n && |flags| == n
        invariant forall k :: 0 <= k < n ==> flags[k] == (k < i && CharAt(s, less[k] + 1) == '/')
      {
        if CharAt(s, less[i] + 1) == '/' {
          flags := flags[i := true];
        }
        i := i + 1;
      }
    }

    /** The loop of the constructor over the first nodeCount '>' positions. */
    static method MoreSignFlags(s: string, more: seq<nat>, n: nat) returns (flags: seq<bool>)
      requires n <= |more|
      requires forall k :: 0 <= k < n ==> 1 <= more[k] < |s|
      ensures flags == seq(n, k requires 0 <= k < n => s[more[k] - 1] == '/')
    {
      flags := seq(n, _ => false);
      var i := 0;
      while i < n
        invariant 0 <= i <= n && |flags| == n
        invariant forall k :: 0 <= k < n ==> flags[k] == (k < i && s[more[k] - 1] == '/')
      {
        if s[more[i] - 1] == '/' {
          flags := flags[i := true];
        }
        i := i + 1;
      }
    }

    /** HTMLParser::parse. */
    method Parse() returns (nodes: seq<HtmlNode>)
      requires Valid()
      requires ParseFrom(ScanOf(), tagTexts, 1, "", []).Some?
      modifies this`nodeIndex
      ensures nodes == ParseFrom(ScanOf(), tagTexts, 1, "", []).value.0
    {
      nodeIndex := 1;
      nodes := ParseSubnodes("");
    }

    /** HTMLParser::parse_subnodes: collects the nodes of one level,
        advancing the shared cursor nodeIndex, until the closing tag of
        openTagName or the last tag. */
    method ParseSubnodes(openTagName: string) returns (nodes: seq<HtmlNode>)
      requires Valid() && 0 <= nodeIndex
      requires ParseFrom(ScanOf(), tagTexts, nodeIndex, openTagName, []).Some?
      modifies this`nodeIndex
      ensures nodes == ParseFrom(ScanOf(), tagTexts, old(nodeIndex), openTagName, []).value.0
      ensures nodeIndex == ParseFrom(ScanOf(), tagTexts, old(nodeIndex), openTagName, []).value.1
      decreases nodeCount - nodeIndex, 2
    {
      ghost var goal := ParseFrom(ScanOf(), tagTexts, nodeIndex, openTagName, []);
      nodes := [];
      while nodeIndex < nodeCount
        invariant old(nodeIndex) <= nodeIndex
        invariant ParseFrom(ScanOf(), tagTexts, nodeIndex, openTagName, nodes) == goal
        decreases nodeCount - nodeIndex
      {
        ghost var idx := nodeIndex;
        ghost var before := nodes;
        var closes, added := ParseTagAt(openTagName, before);
        if closes {
          break;
        }
        ParseFromStep(ScanOf(), tagTexts, idx, openTagName, before);
        nodes := nodes + added;
      }
    }

    /** One pass of the loop of parse_subnodes, over the tag at nodeIndex:
        closes tells that it is the closing tag of openTagName, which ends
        the level and leaves the cursor on it; otherwise added holds the
        nodes it contributes and the cursor has moved past it (past the
        level below, for an opening tag). */
    method ParseTagAt(openTagName: string, ghost nodes: seq<HtmlNode>) returns (closes: bool, added: seq<HtmlNode>)
      requires Valid() && 0 <= nodeIndex < nodeCount
      requires ParseFrom(ScanOf(), tagTexts, nodeIndex, openTagName, nodes).Some?
      modifies this`nodeIndex
      ensures closes <==> isLessSignClosing[old(nodeIndex)] && openTagName == tagTexts[old(nodeIndex)].name
      ensures closes ==> nodeIndex == old(nodeIndex)
      ensures !closes ==> ParseTag(ScanOf(), tagTexts, old(nodeIndex)) == Some((added, nodeIndex))
      decreases nodeCount - nodeIndex, 1
    {
      closes := false;
      if isLessSignClosing[nodeIndex] {
        closes, added := ParseClosingTag(openTagName);
      } else if isMoreSignClosing[nodeIndex] {
        added := ParseSingleTag();
      } else {
        ParseFromStep(ScanOf(), tagTexts, nodeIndex, openTagName, nodes);
        added := ParseOpenTag();
      }
    }

    /** The closing-tag case of the loop of parse_subnodes. */
    method ParseClosingTag(openTagName: string) returns (closes: bool, added: seq<HtmlNode>)
      requires Valid() && 0 <= nodeIndex < nodeCount && isLessSignClosing[nodeIndex]
      modifies this`nodeIndex
      ensures closes <==> openTagName == tagTexts[old(nodeIndex)].name
      ensures closes ==> nodeIndex == old(nodeIndex)
      ensures !closes ==> ParseTag(ScanOf(), tagTexts, old(nodeIndex)) == Some((added, nodeIndex))
    {
      var closeTagName, closeAttributes := GetNameAttr(rawhtml, lessSign[nodeIndex] + 2, SizeT(moreSign[nodeIndex] as int - 1));
      TagTextIs(ScanOf(), tagTexts, nodeIndex, rawhtml, lessSign[nodeIndex] + 2, SizeT(moreSign[nodeIndex] as int - 1), closeTagName, closeAttributes);
      closes := openTagName == closeTagName;
      added := [];
      if !closes {
        nodeIndex := nodeIndex + 1;
      }
    }

    /** The single-tag case of the loop of parse_subnodes: a leaf node. */
    method ParseSingleTag() returns (added: seq<HtmlNode>)
      requires Valid() && 0 <= nodeIndex < nodeCount && !isLessSignClosing[nodeIndex] && isMoreSignClosing[nodeIndex]
      modifies this`nodeIndex
      ensures ParseTag(ScanOf(), tagTexts, old(nodeIndex)) == Some((added, nodeIndex))
    {
      var name, attributes := GetNameAttr(rawhtml, lessSign[nodeIndex] + 1, SizeT(moreSign[nodeIndex] as int - 2));
      TagTextIs(ScanOf(), tagTexts, nodeIndex, rawhtml, lessSign[nodeIndex] + 1, SizeT(moreSign[nodeIndex] as int - 2), name, attributes);
      nodeIndex := nodeIndex + 1;
      added := [SingleNode(name, attributes)];
    }

    /** The opening-tag case of the loop of parse_subnodes: the level below
        is parsed, then becomes the children of a parent node, or, when it
        is empty, the text up to the next '<' becomes a content node. */
    method ParseOpenTag() returns (added: seq<HtmlNode>)
      requires Valid() && 0 <= nodeIndex < nodeCount && !isLessSignClosing[nodeIndex] && !isMoreSignClosing[nodeIndex]
      requires ParseTag(ScanOf(), tagTexts, nodeIndex).Some?
      modifies this`nodeIndex
      ensures ParseTag(ScanOf(), tagTexts, old(nodeIndex)) == Some((added, nodeIndex))
      decreases nodeCount - nodeIndex, 0
    {
      ghost var idx := nodeIndex;
      var name, attributes := ReadTag(ScanOf(), tagTexts, nodeIndex, rawhtml, lessSign[nodeIndex] + 1, SizeT(moreSign[nodeIndex] as int - 1));
      ParseTagOpen(ScanOf(), tagTexts, nodeIndex);
      nodeIndex := nodeIndex + 1;
      var subNodes := ParseSubnodes(name);
      added := OpenTagNodes(ScanOf(), tagTexts, idx, rawhtml, lessSign, moreSign, name, attributes, subNodes, nodeIndex);
    }

    /** The nodes an opening tag adds once the level below it is parsed:
        a parent node over it, or, when it is empty, a content node holding
        the text between the '>' before tag j and the '<' of tag j. */
    static method OpenTagNodes(ghost sc: Scan, ghost tags: seq<TagText>, ghost idx: nat, rawhtml: string, lessSign: seq<nat>, moreSign: seq<nat>,
                               name: string, attributes: map<string, string>, subNodes: seq<HtmlNode>, j: nat) returns (added: seq<HtmlNode>)
      requires ScanOk(sc) && |tags| == |sc.lessSign| && idx < |sc.lessSign|
      requires !sc.isLessSignClosing[idx] && !sc.isMoreSignClosing[idx] && ParseTag(sc, tags, idx).Some?
      requires rawhtml == sc.rawhtml && lessSign == sc.lessSign && moreSign == sc.moreSign
      requires tags[idx] == TagText(name, attributes)
      requires ParseFrom(sc, tags, idx + 1, name, []).Some?
      requires subNodes == ParseFrom(sc, tags, idx + 1, name, []).value.0 && j == ParseFrom(sc, tags, idx + 1, name, []).value.1
      ensures ParseTag(sc, tags, idx) == Some((added, j))
    {
      ParseTagOpen(sc, tags, idx);
      if |subNodes| > 0 {
        added := [ParentNode(name, attributes, subNodes)];
      } else {
        var content := GetSubstr(rawhtml, moreSign[j - 1] + 1, SizeT(lessSign[j] as int - 1));
        added := [ContentNode(name, attributes, content)];
      }
    }

    /** get_name_attr over the text of tag idx gives the tag's text. */
    static method ReadTag(ghost sc: Scan, ghost tags: seq<TagText>, idx: nat, rawhtml: string, beginIndex: nat, endIndex: nat)
      returns (name: string, attributes: map<string, string>)
      requires TagsRead(sc, tags) && idx < |tags|
      requires rawhtml == sc.rawhtml && beginIndex == sc.lessSign[idx] + TagBegin(sc, idx) && endIndex == TagEnd(sc, idx)
      ensures tags[idx] == TagText(name, attributes)
    {
      name, attributes := GetNameAttr(rawhtml, beginIndex, endIndex);
      TagTextIs(sc, tags, idx, rawhtml, beginIndex, endIndex, name, attributes);
    }

    /** HTMLParser::get_name_attr. */
    static method GetNameAttr(rawhtml: string, beginIndex: nat, endIndex: nat) returns (name: string, attributes: map<string, string>)
      requires beginIndex <= |rawhtml|
      ensures (name, attributes) == NameAttr(rawhtml, beginIndex, endIndex)
    {
      var rawname := GetSubstr(rawhtml, beginIndex, endIndex);
      var sep := FindChar(rawname, ' ', 0);
      if sep != -1 {
        assert NameAttr(rawhtml, beginIndex, endIndex) == (GetSubstr(rawname, 0, SizeT(sep - 1)), Attributes(rawname, sep));
        name := GetSubstr(rawname, 0, SizeT(sep - 1));
        attributes := GetAttributes(rawname, sep);
      } else {
        name, attributes := rawname, map[];
      }
    }

    /** HTMLParser::get_attributes: the text after the separating space,
        cut at the spaces outside quote pairs into pieces name="value". */
    static method GetAttributes(rawname: string, sep: nat) returns (attributes: map<string, string>)
      requires sep < |rawname|
      ensures attributes == Attributes(rawname, sep)
    {
      var attrs := GetSubstr(rawname, sep + 1, SizeT(|rawname| - 1));
      var attrLen := |attrs|;
      var quotes := FindAll(attrs, "\"");
      FindAllChar(attrs, '"', quotes);
      CharPositionsMeaning(attrs, '"');
      var quoteMask := FillQuoteMask(attrLen, quotes);
      var spaces := FindAll(attrs, " ");
      FindAllChar(attrs, ' ', spaces);
      CharPositionsMeaning(attrs, ' ');
      var substrBounds := UnquotedSpaces(spaces, quoteMask);
      substrBounds := Framed(substrBounds, attrLen);
      BoundsMeaning(attrs);
      attributes := ExtractAttributes(attrs, substrBounds);
    }

    /** The quote-mask loop of get_attributes: each quote pair, from its
        opening quote up to its closing one, is filled with true. */
    static method FillQuoteMask(attrLen: nat, quotes: seq<nat>) returns (quoteMask: seq<bool>)
      requires Increasing(quotes)
      requires forall i :: 0 <= i < |quotes| ==> quotes[i] < attrLen
      ensures quoteMask == MaskAfter(attrLen, quotes, |quotes| / 2)
    {
      quoteMask := seq(attrLen, _ => false);
      var quoteLen := |quotes| / 2;
      var i := 0;
      while i < quoteLen
        invariant 0 <= i <= quoteLen
        invariant quoteMask == MaskAfter(attrLen, quotes, i)
      {
        var quoteBegin := quotes[i * 2];
        var quoteEnd := quotes[i * 2 + 1];
        ghost var before := quoteMask;
        var p := quoteBegin;
        while p < quoteEnd
          invariant quoteBegin <= p <= quoteEnd
          invariant |quoteMask| == attrLen
          invariant forall x :: 0 <= x < attrLen ==> quoteMask[x] == ((quoteBegin <= x < p) || before[x])
        {
          quoteMask := quoteMask[p := true];
          p := p + 1;
        }
        assert quoteMask == Fill(before, quoteBegin, quoteEnd);
        i := i + 1;
      }
    }

    /** The loop of get_attributes that keeps the spaces outside quotes. */
    static method UnquotedSpaces(spaces: seq<nat>, quoteMask: seq<bool>) returns (substrBounds: seq<nat>)
      requires forall i :: 0 <= i < |spaces| ==> spaces[i] < |quoteMask|
      ensures substrBounds == Unmasked(spaces, quoteMask)
    {
      substrBounds := [];
      var i := 0;
      while i < |spaces|
        invariant 0 <= i <= |spaces|
        invariant substrBounds == Unmasked(spaces[..i], quoteMask)
      {
        assert spaces[..i + 1][..i] == spaces[..i];
        if !quoteMask[spaces[i]] {
          substrBounds := substrBounds + [spaces[i]];
        }
        i := i + 1;
      }
      assert spaces[..i] == spaces;
    }

    /** The extraction loop of get_attributes: one map entry per piece
        that holds two quote marks. */
    static method ExtractAttributes(attrs: string, substrBounds: seq<int>) returns (attributes: map<string, string>)
      requires BoundsOk(attrs, substrBounds)
      ensures attributes == AttrsUpTo(attrs, substrBounds, |substrBounds|)
    {
      attributes := map[];
      var i := 1;
      while i < |substrBounds|
        invariant 1 <= i <= |substrBounds|
        invariant attributes == AttrsUpTo(attrs, substrBounds, i)
      {
        var attr := PieceAt(attrs, substrBounds, i);
        var hasValue, attrName, attrValue := SplitAttr(attr);
        ghost var next := AttrsUpTo(attrs, substrBounds, i + 1);
        assert next == if HasValue(attr) then attributes[AttrName(attr) := ValueOf(attr)] else attributes;
        if hasValue {
          attributes := attributes[attrName := attrValue];
        }
        i := i + 1;
      }
    }

    /** The piece between two neighbouring bounds, as the extraction loop
        cuts it with substr. */
    static method PieceAt(attrs: string, substrBounds: seq<int>, i: nat) returns (attr: string)
      requires BoundsOk(attrs, substrBounds) && 1 <= i < |substrBounds|
      ensures attr == Piece(attrs, substrBounds, i)
    {
      PieceInside(attrs, substrBounds, i);
      var substrBegin := substrBounds[i - 1] + 1;
      var substrLen := substrBounds[i] - substrBegin + 1;
      attr := Substr(attrs, substrBegin, substrLen);
    }

    /** The body of the extraction loop on one piece: the name up to the
        first '=', and the value between the first two quote marks when
        there are two. */
    static method SplitAttr(attr: string) returns (hasValue: bool, attrName: string, attrValue: string)
      ensures hasValue == HasValue(attr) && attrName == AttrName(attr)
      ensures hasValue ==> attrValue == ValueOf(attr)
    {
      var delimPos := FindChar(attr, '=', 0);
      attrName := if delimPos == -1 then attr else attr[..delimPos];
      var quotesInline := FindAll(attr, "\"");
      FindAllChar(attr, '"', quotesInline);
      hasValue := |quotesInline| > 1;
      attrValue := "";
      if hasValue {
        attrValue := ValueOf(attr);
      }
    }
  }

  // ---------------------------------------------------------------------
  // HTMLDocument

  /** The lines get_text emits: each string followed by a newline. */
  function Terminated(cs: seq<string>): string {
    if cs == [] then "" else Terminated(cs[..|cs| - 1]) + cs[|cs| - 1] + "\n"
  }

  lemma {:induction false} TerminatedAppend(a: seq<string>, b: seq<string>)
    ensures Terminated(a + b) == Terminated(a) + Terminated(b)
  {
    if b == [] {
      assert a + b == a;
    } else {
      var front, last := b[..|b| - 1], b[|b| - 1];
      TerminatedAppend(a, front);
      assert (a + b)[..|a + b| - 1] == a + front && (a + b)[|a + b| - 1] == last;
      assert Terminated(a + b) == Terminated(a) + Terminated(front) + last + "\n";
    }
  }

  lemma {:induction false} JoinSnoc(cs: seq<string>, x: string, d: char)
    requires cs != []
    ensures Join(cs + [x], d) == Join(cs, d) + [d] + x
  {
    if |cs| == 1 {
      assert (cs + [x])[1..] == [x];
    } else {
      JoinSnoc(cs[1..], x, d);
      assert (cs + [x])[1..] == cs[1..] + [x];
    }
  }

  /** The text is the strings joined by newlines with a final newline, and
      is empty exactly when there are no strings. */
  lemma {:induction false} TerminatedJoin(cs: seq<string>)
    ensures cs == [] <==> Terminated(cs) == ""
    ensures cs != [] ==> Terminated(cs) == Join(cs, '\n') + "\n"
  {
    if cs != [] {
      var init := cs[..|cs| - 1];
      TerminatedJoin(init);
      if init != [] {
        JoinSnoc(init, cs[|cs| - 1], '\n');
        assert init + [cs[|cs| - 1]] == cs;
      }
    }
  }

  /** The contents find_content gives for each node, one node after the
      other. */
  function ParagraphContents(ps: seq<HtmlNode>): seq<string> {
    if ps == [] then [] else ParagraphContents(ps[..|ps| - 1]) + ps[|ps| - 1].FindContent()
  }

  lemma TerminatedSnoc(cs: seq<string>, j: nat)
    requires j < |cs|
    ensures Terminated(cs[..j + 1]) == Terminated(cs[..j]) + cs[j] + "\n"
  {
    assert cs[..j + 1][..j] == cs[..j];
  }

  lemma ParagraphContentsSnoc(ps: seq<HtmlNode>, i: nat)
    requires i < |ps|
    ensures ParagraphContents(ps[..i + 1]) == ParagraphContents(ps[..i]) + ps[i].FindContent()
  {
    assert ps[..i + 1][..i] == ps[..i];
  }

  /** Every string get_text puts on a line of its own is a non-empty
      content of a node among ps or below one. */
  lemma {:induction false} ParagraphContentsFrom(ps: seq<HtmlNode>)
    ensures forall c :: c in ParagraphContents(ps) ==>
      |c| > 0 && exists i :: 0 <= i < |ps| && c in Contents([ps[i]] + Descendants(ps[i]))
  {
    if ps != [] {
      var init := ps[..|ps| - 1];
      var last := ps[|ps| - 1];
      ParagraphContentsFrom(init);
      FindContentIsPreorder(last);
      forall c | c in ParagraphContents(ps)
        ensures |c| > 0 && exists i :: 0 <= i < |ps| && c in Contents([ps[i]] + Descendants(ps[i]))
      {
        if c in ParagraphContents(init) {
          var i :| 0 <= i < |init| && c in Contents([init[i]] + Descendants(init[i]));
          assert ps[i] == init[i];
        } else {
          assert ps[|ps| - 1] == last;
        }
      }
    }
  }

  class HtmlDocument {
    var nodes: seq<HtmlNode>

    /** HTMLDocument(): a document with no nodes. */
    constructor Empty()
      ensures nodes == []
    {
      nodes := [];
    }

    /** HTMLDocument(rawhtml): the top-level nodes the parser builds. */
    constructor (rawhtml: string)
      requires BracketsReadable(rawhtml) && ParseHtml(rawhtml).Some?
      ensures nodes == ParseHtml(rawhtml).value
    {
      var htmlParser := new HtmlParser(rawhtml);
      ScanForMeaning(rawhtml);
      var parsed := htmlParser.Parse();
      nodes := parsed;
    }

    /** HTMLDocument::is_valid: there is a first top-level node. */
    predicate IsValid()
      reads this
    {
      |nodes| > 0
    }

    /** HTMLDocument::find_by_tag: the search below the first node only. */
    function FindByTag(name: string): (r: seq<HtmlNode>)
      reads this
      ensures !IsValid() ==> r == []
      ensures IsValid() ==> forall m :: m in r <==> m in Descendants(nodes[0]) && m.name == name
    {
      if IsValid() then nodes[0].FindByTag(name) else []
    }

    /** HTMLDocument::find_by_attr. */
    function FindByAttr(tagName: string, attrName: string, attrValue: string): (r: seq<HtmlNode>)
      reads this
      ensures !IsValid() ==> r == []
      ensures IsValid() ==> forall m :: m in r <==>
        m in Descendants(nodes[0]) && m.name == tagName && AttrValue(m.attributes, attrName) == attrValue
    {
      if IsValid() then nodes[0].FindByAttr(tagName, attrName, attrValue) else []
    }

    /** HTMLDocument::get_header: the content of the first h1. */
    function GetHeader(): (r: string)
      reads this
      ensures r != "" ==> IsValid() && exists m :: m in Descendants(nodes[0]) && m.name == "h1" && m.content == r
      ensures IsValid() && (forall m :: m in Descendants(nodes[0]) ==> m.name != "h1") ==> r == ""
      ensures !IsValid() ==> r == ""
    {
      var found := FindByTag("h1");
      if |found| > 0 then
        assert found[0] in found;
        found[0].content
      else ""
    }

    /** HTMLDocument::get_short_url: the second non-empty '/'-separated
        piece of the og:url meta content, the host of "https://host/...". */
    function GetShortUrl(): (r: string)
      reads this
      ensures '/' !in r
      ensures !IsValid() ==> r == ""
    {
      var found := FindByAttr("meta", "property", "og:url");
      if |found| > 0 then
        TokensCorrect(AttrValue(found[0].attributes, "content"), '/');
        var urlParts := Tokens(AttrValue(found[0].attributes, "content"), '/');
        if |urlParts| > 1 then
          assert urlParts[1] in urlParts;
          urlParts[1]
        else ""
      else ""
    }

    /** HTMLDocument::get_published_time, with extract_datetime (a calendar
        conversion) passed in: the converted article:published_time meta
        content, or 0 without one. */
    function GetPublishedTime(extractDatetime: string -> int): (r: int)
      reads this
      ensures !IsValid() ==> r == 0
      ensures r != 0 ==> IsValid() && exists m :: (m in Descendants(nodes[0]) && m.name == "meta"
                                                  && AttrValue(m.attributes, "property") == "article:published_time"
                                                  && r == extractDatetime(AttrValue(m.attributes, "content")))
    {
      var found := FindByAttr("meta", "property", "article:published_time");
      if |found| > 0 then
        assert found[0] in found;
        extractDatetime(AttrValue(found[0].attributes, "content"))
      else 0
    }

    /** HTMLDocument::get_text: every content found in every p, each
        followed by a newline. */
    method GetText() returns (text: string)
      ensures text == Terminated(ParagraphContents(FindByTag("p")))
    {
      var ps := FindByTag("p");
      text := ContentLines(ps);
    }

    /** The two loops of get_text over the nodes it found. */
    static method ContentLines(ps: seq<HtmlNode>) returns (text: string)
      ensures text == Terminated(ParagraphContents(ps))
    {
      text := "";
      var i := 0;
      while i < |ps|
        invariant 0 <= i <= |ps|
        invariant text == Terminated(ParagraphContents(ps[..i]))
      {
        var contents := ps[i].FindContent();
        text := AppendLines(text, contents);
        ParagraphContentsSnoc(ps, i);
        TerminatedAppend(ParagraphContents(ps[..i]), contents);
        i := i + 1;
      }
      assert ps[..i] == ps;
    }

    /** The inner loop of get_text: each content of one node on a line of
        its own. */
    static method AppendLines(prefix: string, contents: seq<string>) returns (text: string)
      ensures text == prefix + Terminated(contents)
    {
      text := prefix;
      var j := 0;
      while j < |contents|
        invariant 0 <= j <= |contents|
        invariant text == prefix + Terminated(contents[..j])
      {
        TerminatedSnoc(contents, j);
        text := text + contents[j] + "\n";
        j := j + 1;
      }
      assert contents[..j] == contents;
    }

    /** The queries search the strict descendants of the first node in
        pre-order, and find nothing in a document without nodes. */
    lemma QueriesMeaning(name: string, tagName: string, attrName: string, attrValue: string)
      ensures !IsValid() ==> FindByTag(name) == [] && FindByAttr(tagName, attrName, attrValue) == []
      ensures IsValid() ==> FindByTag(name) == Select(Descendants(nodes[0]), ByTag(name))
      ensures IsValid() ==> FindByAttr(tagName, attrName, attrValue) == Select(Descendants(nodes[0]), ByAttr(tagName, attrName, attrValue))
    {
      if IsValid() {
        FindByTagIsPreorder(nodes[0], name);
        FindByAttrIsPreorder(nodes[0], tagName, attrName, attrValue);
      }
    }

    /** The header is the content of the first h1 below the first node in
        pre-order, and "" without one. */
    lemma HeaderIsFirstH1()
      ensures var hs := if IsValid() then Select(Descendants(nodes[0]), ByTag("h1")) else [];
        GetHeader() == if |hs| > 0 then hs[0].content else ""
    {
      QueriesMeaning("h1", "", "", "");
    }

    /** The short url holds no '/', is a non-empty piece of the og:url
        content when there is one, and the empty document has none. */
    lemma ShortUrlMeaning()
      ensures '/' !in GetShortUrl()
      ensures !IsValid() ==> GetShortUrl() == ""
      ensures GetShortUrl() != "" ==>
        var found := FindByAttr("meta", "property", "og:url");
        |found| > 0 && var url := AttrValue(found[0].attributes, "content");
        GetShortUrl() == Tokens(url, '/')[1] && GetShortUrl() in Tokens(url, '/')
    {
      var found := FindByAttr("meta", "property", "og:url");
      if |found| > 0 {
        TokensCorrect(AttrValue(found[0].attributes, "content"), '/');
      }
    }

    /** The text is the contents joined by newlines with a final newline,
        every line a non-empty content of a p or of a node below one, and
        the empty document has no text. */
    lemma TextMeaning()
      ensures var cs := ParagraphContents(FindByTag("p"));
        && (cs == [] <==> Terminated(cs) == "")
        && (cs != [] ==> Terminated(cs) == Join(cs, '\n') + "\n")
        && (forall c :: c in cs ==> |c| > 0)
      ensures !IsValid() ==> Terminated(ParagraphContents(FindByTag("p"))) == ""
    {
      var cs := ParagraphContents(FindByTag("p"));
      TerminatedJoin(cs);
      ParagraphContentsFrom(FindByTag("p"));
    }
  }
}
