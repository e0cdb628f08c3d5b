/** The part of BeautifulSoup (with the `html.parser` back end) the two
    extractors use, over an abstract parsed card: `find(class_=c)`,
    `find_all([tags])`, `get_text()` with and without `strip=True`, and
    Python's `max(texts, key=len)`. */
module Soup {
  import opened Wrappers
  import opened Text

  /** One element of a card's inner HTML: the classes of its `class`
      attribute, its tag name, and the text strings inside it in document
      order (what `get_text` joins). */
  datatype Node = Node(classes: set<string>, tag: string, strings: seq<string>)

  /** A matched card: its own `class` attribute (`None` when the element
      has none) and the elements of its inner HTML in document order. */
  datatype Card = Card(classAttr: Option<string>, nodes: seq<Node>)

  predicate HasClass(n: Node, cls: string) {
    cls in n.classes
  }

  /** Node `k` is the first, in document order, that carries class `cls`. */
  predicate FirstWithClass(nodes: seq<Node>, cls: string, k: nat) {
    k < |nodes| && HasClass(nodes[k], cls) && forall j :: 0 <= j < k ==> !HasClass(nodes[j], cls)
  }

  predicate NoneWithClass(nodes: seq<Node>, cls: string) {
    forall j :: 0 <= j < |nodes| ==> !HasClass(nodes[j], cls)
  }

  /** `soup.find(class_=cls)`: the index of the first node carrying class `cls`. */
  function FindByClass(nodes: seq<Node>, cls: string): (r: Option<nat>)
    ensures r.Some? ==> r.value < |nodes|
  {
    if nodes == [] then None
    else if HasClass(nodes[0], cls) then Some(0)
    else
      match FindByClass(nodes[1..], cls)
      case None => None
      case Some(k) => Some(k + 1)
  }

  /** `find` returns the first node carrying the class, and nothing
      exactly when no node carries it. */
  lemma {:induction false} FindByClassSpec(nodes: seq<Node>, cls: string)
    ensures FindByClass(nodes, cls).Some? ==> FirstWithClass(nodes, cls, FindByClass(nodes, cls).value)
    ensures FindByClass(nodes, cls).None? <==> NoneWithClass(nodes, cls)
  {
    if nodes != [] && !HasClass(nodes[0], cls) {
      FindByClassSpec(nodes[1..], cls);
      assert forall j :: 1 <= j < |nodes| ==> nodes[j] == nodes[1..][j - 1];
    }
  }

  /** Node `k` is the first, in document order, whose tag is in `tags`. */
  predicate FirstWithTag(nodes: seq<Node>, tags: set<string>, k: nat) {
    k < |nodes| && nodes[k].tag in tags && forall j :: 0 <= j < k ==> nodes[j].tag !in tags
  }

  /** `soup.find_all(tags)`: every node whose tag is one of `tags`, in document order. */
  function FindAllByTag(nodes: seq<Node>, tags: set<string>): seq<Node> {
    if nodes == [] then []
    else (if nodes[0].tag in tags then [nodes[0]] else []) + FindAllByTag(nodes[1..], tags)
  }

  /** `find_all` returns exactly the nodes whose tag is one of `tags`. */
  lemma {:induction false} FindAllByTagMembers(nodes: seq<Node>, tags: set<string>)
    ensures forall n :: n in FindAllByTag(nodes, tags) <==> n in nodes && n.tag in tags
  {
    if nodes != [] {
      FindAllByTagMembers(nodes[1..], tags);
      assert forall n :: n in nodes <==> n == nodes[0] || n in nodes[1..];
    }
  }

  /** The first node `find_all` returns is the first matching node. */
  lemma {:induction false} FindAllByTagFirst(nodes: seq<Node>, tags: set<string>, k: nat)
    requires FirstWithTag(nodes, tags, k)
    ensures FindAllByTag(nodes, tags) != [] && FindAllByTag(nodes, tags)[0] == nodes[k]
  {
    if k > 0 {
      FindAllByTagFirst(nodes[1..], tags, k - 1);
    }
  }

  function Concat(parts: seq<string>): string {
    if parts == [] then [] else parts[0] + Concat(parts[1..])
  }

  function JoinWith(sep: string, parts: seq<string>): string {
    if parts == [] then []
    else if |parts| == 1 then parts[0]
    else parts[0] + sep + JoinWith(sep, parts[1..])
  }

  /** The node's strings, each stripped, the empty ones dropped. */
  function StrippedStrings(strings: seq<string>): (r: seq<string>)
    ensures |r| <= |strings|
    ensures forall k :: 0 <= k < |r| ==> r[k] != []
  {
    if strings == [] then []
    else
      var s := Strip(strings[0]);
      (if s == [] then [] else [s]) + StrippedStrings(strings[1..])
  }

  /** `node.get_text()`: all of its strings as they are. */
  function GetText(n: Node): string {
    Concat(n.strings)
  }

  /** `node.get_text(strip=True)`: its stripped strings, joined with nothing. */
  function GetTextStripped(n: Node): string {
    Concat(StrippedStrings(n.strings))
  }

  /** `node.get_text(separator="\n", strip=True)`. */
  function GetTextLines(n: Node): string {
    JoinWith("\n", StrippedStrings(n.strings))
  }

  /** `[text(t) for t in nodes if len(text(t)) > min]`. */
  function LongTexts(nodes: seq<Node>, text: Node -> string, min: nat): seq<string> {
    if nodes == [] then []
    else
      var t := text(nodes[0]);
      (if |t| > min then [t] else []) + LongTexts(nodes[1..], text, min)
  }

  /** The kept texts are exactly the texts of `nodes` longer than `min`. */
  lemma {:induction false} LongTextsMembers(nodes: seq<Node>, text: Node -> string, min: nat)
    ensures forall t :: t in LongTexts(nodes, text, min) ==>
      |t| > min && exists n :: n in nodes && text(n) == t
    ensures forall n :: n in nodes && |text(n)| > min ==> text(n) in LongTexts(nodes, text, min)
  {
    if nodes != [] {
      LongTextsMembers(nodes[1..], text, min);
      assert forall n :: n in nodes <==> n == nodes[0] || n in nodes[1..];
    }
  }

  /** Index of the element `max(xs, key=len)` returns: a longest one, and
      the first of the longest, since `max` keeps its current pick on ties. */
  function LongestIndex(xs: seq<string>): (i: nat)
    requires |xs| > 0
    ensures i < |xs|
    ensures forall j :: 0 <= j < |xs| ==> |xs[j]| <= |xs[i]|
    ensures forall j :: 0 <= j < i ==> |xs[j]| < |xs[i]|
  {
    if |xs| == 1 then 0
    else
      var k := 1 + LongestIndex(xs[1..]);
      assert forall j :: 1 <= j < |xs| ==> xs[j] == xs[1..][j - 1];
      if |xs[k]| > |xs[0]| then k else 0
  }

  /** `max(xs, key=len)`. */
  function Longest(xs: seq<string>): string
    requires |xs| > 0
  {
    xs[LongestIndex(xs)]
  }

  /** `max(valid, key=len)` over the texts longer than `min` of the nodes
      tagged with one of `tags`: `None` when there is no such text,
      otherwise a longest one. */
  function LongestText(nodes: seq<Node>, tags: set<string>, text: Node -> string, min: nat): Option<string> {
    var valid := LongTexts(FindAllByTag(nodes, tags), text, min);
    if valid != [] then Some(Longest(valid)) else None
  }

  /** The pick is the text of a tagged node, longer than `min` and at least
      as long as every other tagged text longer than `min`; there is none
      exactly when no tagged text is longer than `min`. */
  lemma LongestTextSpec(nodes: seq<Node>, tags: set<string>, text: Node -> string, min: nat)
    ensures LongestText(nodes, tags, text, min).None? <==>
      forall n :: n in nodes && n.tag in tags ==> |text(n)| <= min
    ensures LongestText(nodes, tags, text, min).Some? ==>
      var r := LongestText(nodes, tags, text, min).value;
      && |r| > min
      && (exists n :: n in nodes && n.tag in tags && text(n) == r)
      && forall n :: n in nodes && n.tag in tags && |text(n)| > min ==> |text(n)| <= |r|
  {
    var found := FindAllByTag(nodes, tags);
    var valid := LongTexts(found, text, min);
    FindAllByTagMembers(nodes, tags);
    LongTextsMembers(found, text, min);
    if valid != [] {
      var i := LongestIndex(valid);
      assert valid[i] in valid;
      forall n | n in nodes && n.tag in tags && |text(n)| > min
        ensures |text(n)| <= |valid[i]|
      {
        assert text(n) in valid;
        var j :| 0 <= j < |valid| && valid[j] == text(n);
      }
    } else {
      assert forall n :: n in nodes && n.tag in tags ==> |text(n)| <= min;
    }
  }
}
