/** Showing an HTML page as text: the title, then every text node of the
    body on its own line, indented by list nesting and followed by the
    target of the enclosing link. The HTML parser itself is not modelled;
    its tree is an input. */
module Page {
  import opened Basics

  /** A node of the parsed tree; an attribute may be present without a
      value. */
  datatype Node =
    | Element(name: string, attributes: map<string, Option<string>>, children: seq<Node>)
    | Text(text: string)
    | Comment(text: string)

  /** One printed line: `depth` copies of the indent, the text, the suffix. */
  datatype Line = Line(depth: nat, text: string, suffix: string)

  /** The lines printed, and whether printing stopped at a link without a
      target (a panic; what was printed before stays printed). */
  datatype Printout = Printout(lines: seq<Line>, aborted: bool)

  const LINK_ARROW: string := " -> "

  /** The link target of an anchor, when it has an `href` with a value. */
  function Href(attributes: map<string, Option<string>>): Option<string>
  {
    if "href" in attributes && attributes["href"].Some? then Some(attributes["href"].value) else None
  }

  /** Printout of a sequence of nodes, in order, until one aborts. */
  function Flatten(nodes: seq<Node>, depth: nat, suffix: string): (p: Printout)
    ensures forall k :: 0 <= k < |p.lines| ==> p.lines[k].depth >= depth
    ensures forall k :: 0 <= k < |p.lines| ==> p.lines[k].suffix == suffix || LINK_ARROW <= p.lines[k].suffix
    decreases nodes, 1
  {
    if |nodes| == 0 then Printout([], false)
    else
      var first := FlattenNode(nodes[0], depth, suffix);
      if first.aborted then first
      else
        var rest := Flatten(nodes[1..], depth, suffix);
        Printout(first.lines + rest.lines, rest.aborted)
  }

  /** Printout of one node: a text is a line; `ol` and `ul` indent their
      content one level; an `a` gives its content the suffix " -> href" and
      aborts without a target; `script` and comments print nothing; any
      other element prints its content as it stands. */
  function FlattenNode(n: Node, depth: nat, suffix: string): (p: Printout)
    ensures forall k :: 0 <= k < |p.lines| ==> p.lines[k].depth >= depth
    ensures forall k :: 0 <= k < |p.lines| ==> p.lines[k].suffix == suffix || LINK_ARROW <= p.lines[k].suffix
    decreases n, 0
  {
    match n
    case Text(t) => Printout([Line(depth, t, suffix)], false)
    case Comment(_) => Printout([], false)
    case Element(name, attributes, children) =>
      if name == "ol" || name == "ul" then Flatten(children, depth + 1, suffix)
      else if name == "a" then
        match Href(attributes)
        case None => Printout([], true)
        case Some(target) => Flatten(children, depth, LINK_ARROW + target)
      else if name == "script" then Printout([], false)
      else Flatten(children, depth, suffix)
  }

  /** Some link that printing reaches (not inside a script) has no target. */
  predicate HasBrokenLink(nodes: seq<Node>)
    decreases nodes, 1
  {
    exists k :: 0 <= k < |nodes| && NodeHasBrokenLink(nodes[k])
  }

  predicate NodeHasBrokenLink(n: Node)
    decreases n, 0
  {
    match n
    case Element(name, attributes, children) =>
      if name == "script" then false
      else if name == "a" && Href(attributes).None? then true
      else HasBrokenLink(children)
    case _ => false
  }

  /** What printing needs to know of an enclosing element: its name and,
      for a link, its target. */
  datatype Ancestor = Ancestor(name: string, href: Option<string>)

  /** A text node that printing reaches, with its enclosing elements from
      the outermost inward. */
  datatype Visible = Visible(text: string, ancestors: seq<Ancestor>)

  /** The texts printing shows, in document order, each with its enclosing
      elements: every text node not inside a script. */
  function Visibles(nodes: seq<Node>): seq<Visible>
    decreases nodes, 1
  {
    if |nodes| == 0 then [] else NodeVisibles(nodes[0]) + Visibles(nodes[1..])
  }

  function NodeVisibles(n: Node): seq<Visible>
    decreases n, 0
  {
    match n
    case Text(t) => [Visible(t, [])]
    case Comment(_) => []
    case Element(name, attributes, children) =>
      if name == "script" then [] else Under(Ancestor(name, Href(attributes)), Visibles(children))
  }

  /** The same texts seen from one element further out. */
  function Under(a: Ancestor, vs: seq<Visible>): (r: seq<Visible>)
    ensures |r| == |vs|
    ensures forall i :: 0 <= i < |vs| ==> r[i] == Visible(vs[i].text, [a] + vs[i].ancestors)
  {
    seq(|vs|, i requires 0 <= i < |vs| => Visible(vs[i].text, [a] + vs[i].ancestors))
  }

  predicate IsList(a: Ancestor)
  {
    a.name == "ol" || a.name == "ul"
  }

  predicate IsLink(a: Ancestor)
  {
    a.name == "a" && a.href.Some?
  }

  /** The number of enclosing lists. */
  function ListDepth(ancestors: seq<Ancestor>): (r: nat)
    ensures r <= |ancestors|
    ensures r == 0 <==> forall k :: 0 <= k < |ancestors| ==> !IsList(ancestors[k])
  {
    if |ancestors| == 0 then 0
    else (if IsList(ancestors[0]) then 1 else 0) + ListDepth(ancestors[1..])
  }

  /** No link lies inside the `k`-th ancestor. */
  predicate InnermostLink(ancestors: seq<Ancestor>, k: int)
  {
    forall j :: 0 <= k < j < |ancestors| ==> !IsLink(ancestors[j])
  }

  /** The suffix of a text: the arrow of its innermost enclosing link, or
      `suffix` when no link encloses it. */
  function LinkSuffix(ancestors: seq<Ancestor>, suffix: string): (r: string)
    ensures (forall k :: 0 <= k < |ancestors| ==> !IsLink(ancestors[k])) ==> r == suffix
    ensures forall k :: 0 <= k < |ancestors| && IsLink(ancestors[k]) && InnermostLink(ancestors, k) ==>
      r == LINK_ARROW + ancestors[k].href.value
  {
    if |ancestors| == 0 then suffix
    else
      var rest := ancestors[1..];
      assert forall j :: 1 <= j < |ancestors| ==> ancestors[j] == rest[j - 1];
      LinkSuffix(rest, if IsLink(ancestors[0]) then LINK_ARROW + ancestors[0].href.value else suffix)
  }

  /** The line each visible text is printed as, starting from `depth` with
      the inherited `suffix`. */
  function Place(vs: seq<Visible>, depth: nat, suffix: string): (r: seq<Line>)
    ensures |r| == |vs|
  {
    seq(|vs|, i requires 0 <= i < |vs| =>
      Line(depth + ListDepth(vs[i].ancestors), vs[i].text, LinkSuffix(vs[i].ancestors, suffix)))
  }

  lemma PlaceAppend(a: seq<Visible>, b: seq<Visible>, depth: nat, suffix: string)
    ensures Place(a + b, depth, suffix) == Place(a, depth, suffix) + Place(b, depth, suffix)
  {
    var l := Place(a + b, depth, suffix);
    var r := Place(a, depth, suffix) + Place(b, depth, suffix);
    forall i | 0 <= i < |a + b| ensures l[i] == r[i] {
      if i < |a| {
        assert (a + b)[i] == a[i];
      } else {
        assert (a + b)[i] == b[i - |a|];
      }
    }
  }

  /** Entering an element adds one level for a list and replaces the
      suffix for a link. */
  lemma {:induction false} PlaceUnder(a: Ancestor, vs: seq<Visible>, depth: nat, suffix: string)
    ensures Place(Under(a, vs), depth, suffix)
         == Place(vs, depth + (if IsList(a) then 1 else 0),
                  if IsLink(a) then LINK_ARROW + a.href.value else suffix)
  {
    var l := Place(Under(a, vs), depth, suffix);
    var r := Place(vs, depth + (if IsList(a) then 1 else 0),
                   if IsLink(a) then LINK_ARROW + a.href.value else suffix);
    forall i | 0 <= i < |vs| ensures l[i] == r[i] {
      var anc := [a] + vs[i].ancestors;
      assert anc[1..] == vs[i].ancestors;
    }
  }

  /** Printing aborts exactly when a reachable link has no target, and when
      it does not abort it shows every visible text in order, indented by
      the lists around it and followed by the arrow of its innermost link. */
  lemma {:induction false} FlattenShowsVisibleTexts(nodes: seq<Node>, depth: nat, suffix: string)
    ensures Flatten(nodes, depth, suffix).aborted <==> HasBrokenLink(nodes)
    ensures !Flatten(nodes, depth, suffix).aborted ==>
      Flatten(nodes, depth, suffix).lines == Place(Visibles(nodes), depth, suffix)
    decreases nodes, 1
  {
    if |nodes| > 0 {
      FlattenNodeShowsVisibleTexts(nodes[0], depth, suffix);
      FlattenShowsVisibleTexts(nodes[1..], depth, suffix);
      PlaceAppend(NodeVisibles(nodes[0]), Visibles(nodes[1..]), depth, suffix);
      if HasBrokenLink(nodes) && !NodeHasBrokenLink(nodes[0]) {
        var k :| 0 <= k < |nodes| && NodeHasBrokenLink(nodes[k]);
        assert nodes[1..][k - 1] == nodes[k];
      }
      if HasBrokenLink(nodes[1..]) {
        var k :| 0 <= k < |nodes[1..]| && NodeHasBrokenLink(nodes[1..][k]);
        assert nodes[k + 1] == nodes[1..][k];
      }
    } else {
      assert !HasBrokenLink(nodes);
    }
  }

  lemma {:induction false} FlattenNodeShowsVisibleTexts(n: Node, depth: nat, suffix: string)
    ensures FlattenNode(n, depth, suffix).aborted <==> NodeHasBrokenLink(n)
    ensures !FlattenNode(n, depth, suffix).aborted ==>
      FlattenNode(n, depth, suffix).lines == Place(NodeVisibles(n), depth, suffix)
    decreases n, 0
  {
    match n
    case Text(t) =>
      assert ListDepth([]) == 0;
    case Comment(_) =>
    case Element(name, attributes, children) =>
      if name != "script" && !(name == "a" && Href(attributes).None?) {
        var a := Ancestor(name, Href(attributes));
        var d := depth + (if IsList(a) then 1 else 0);
        var s := if IsLink(a) then LINK_ARROW + a.href.value else suffix;
        FlattenShowsVisibleTexts(children, d, s);
        PlaceUnder(a, Visibles(children), depth, suffix);
      }
  }

  /** The first element named `title`, as `Iterator::find` returns it. */
  function FindTitle(nodes: seq<Node>): (r: Option<nat>)
    ensures r.Some? ==> r.value < |nodes| && nodes[r.value].Element? && nodes[r.value].name == "title"
    ensures r.Some? ==> forall k :: 0 <= k < r.value ==> !(nodes[k].Element? && nodes[k].name == "title")
    ensures r.None? ==> forall k :: 0 <= k < |nodes| ==> !(nodes[k].Element? && nodes[k].name == "title")
  {
    if |nodes| == 0 then None
    else if nodes[0].Element? && nodes[0].name == "title" then Some(0)
    else match FindTitle(nodes[1..])
      case None => None
      case Some(k) => Some(k + 1)
  }

  /** The page title: the first text child of the head's first `title`
      element; no such element, or a first child that is not text, is an
      error. */
  function Title(head: seq<Node>): (r: Result<string>)
    ensures r.Ok? <==> FindTitle(head).Some? && |head[FindTitle(head).value].children| > 0
                       && head[FindTitle(head).value].children[0].Text?
    ensures r.Ok? ==> r.value == head[FindTitle(head).value].children[0].text
  {
    match FindTitle(head)
    case None => Err(MissingTitle)
    case Some(k) =>
      var children := head[k].children;
      if |children| == 0 || !children[0].Text? then Err(MissingTitle) else Ok(children[0].text)
  }

  /** The head's and the body's children: the document's last node is the
      `html` element, whose first two children are elements. */
  function PageParts(document: seq<Node>): (r: Result<(seq<Node>, seq<Node>)>)
    ensures r.Ok? <==> |document| > 0 && document[|document| - 1].Element?
                       && |document[|document| - 1].children| >= 2
                       && document[|document| - 1].children[0].Element?
                       && document[|document| - 1].children[1].Element?
    ensures r.Ok? ==> var html := document[|document| - 1].children;
                      r.value == (html[0].children, html[1].children)
  {
    if |document| == 0 || !document[|document| - 1].Element? then Err(BadDocument)
    else
      var html := document[|document| - 1].children;
      if |html| < 2 || !html[0].Element? || !html[1].Element? then Err(BadDocument)
      else Ok((html[0].children, html[1].children))
  }

  /** A rendered page: its title and the printout of its body. */
  datatype Rendered = Rendered(title: string, printout: Printout)

  /** An HTML response shown in the terminal: the parsed tree (`None` when
      the parser rejects the text), its parts, the title, then the body's
      children from depth 0 with no suffix. */
  function RenderPage(document: Option<seq<Node>>): (r: Result<Rendered>)
    ensures document.None? ==> r == Err(HtmlUnparsable)
    ensures r.Ok? ==> document.Some? && PageParts(document.value).Ok?
    ensures r.Ok? ==> r.value.printout == Flatten(PageParts(document.value).value.1, 0, "")
    ensures r.Ok? ==> Title(PageParts(document.value).value.0) == Ok(r.value.title)
  {
    match document
    case None => Err(HtmlUnparsable)
    case Some(nodes) =>
      match PageParts(nodes)
      case Err(e) => Err(e)
      case Ok((head, body)) =>
        match Title(head)
        case Err(e) => Err(e)
        case Ok(title) => Ok(Rendered(title, Flatten(body, 0, "")))
  }

  /** A link around a text prints that text once, followed by the arrow and
      the target in place of whatever suffix it inherited. */
  lemma LinkLine(target: string, text: string, depth: nat, suffix: string)
    ensures FlattenNode(Element("a", map["href" := Some(target)], [Text(text)]), depth, suffix)
         == Printout([Line(depth, text, LINK_ARROW + target)], false)
  {
    var n := Element("a", map["href" := Some(target)], [Text(text)]);
    assert Href(n.attributes) == Some(target);
    OneText(text, depth, LINK_ARROW + target);
  }

  /** A lone text prints as one line. */
  lemma OneText(text: string, depth: nat, suffix: string)
    ensures Flatten([Text(text)], depth, suffix) == Printout([Line(depth, text, suffix)], false)
  {
    assert [Text(text)][1..] == [];
    assert [Line(depth, text, suffix)] + [] == [Line(depth, text, suffix)];
  }

  /** Every line one level deeper. */
  function Indented(lines: seq<Line>): (r: seq<Line>)
    ensures |r| == |lines|
    ensures forall i :: 0 <= i < |lines| ==>
      r[i] == Line(lines[i].depth + 1, lines[i].text, lines[i].suffix)
  {
    seq(|lines|, i requires 0 <= i < |lines| => Line(lines[i].depth + 1, lines[i].text, lines[i].suffix))
  }

  /** Printing nodes one level deeper prints the same lines, each indented
      once more, and aborts in the same place. */
  lemma {:induction false} FlattenDeeper(nodes: seq<Node>, depth: nat, suffix: string)
    ensures Flatten(nodes, depth + 1, suffix)
         == Printout(Indented(Flatten(nodes, depth, suffix).lines), Flatten(nodes, depth, suffix).aborted)
    decreases nodes, 1
  {
    if |nodes| > 0 {
      FlattenNodeDeeper(nodes[0], depth, suffix);
      FlattenDeeper(nodes[1..], depth, suffix);
      var first := FlattenNode(nodes[0], depth, suffix).lines;
      var rest := Flatten(nodes[1..], depth, suffix).lines;
      assert Indented(first + rest) == Indented(first) + Indented(rest);
    }
  }

  lemma {:induction false} FlattenNodeDeeper(n: Node, depth: nat, suffix: string)
    ensures FlattenNode(n, depth + 1, suffix)
         == Printout(Indented(FlattenNode(n, depth, suffix).lines), FlattenNode(n, depth, suffix).aborted)
    decreases n, 0
  {
    match n
    case Text(t) =>
    case Comment(_) =>
    case Element(name, attributes, children) =>
      if name == "ol" || name == "ul" {
        FlattenDeeper(children, depth + 1, suffix);
      } else if name == "a" {
        if Href(attributes).Some? {
          FlattenDeeper(children, depth, LINK_ARROW + Href(attributes).value);
        }
      } else if name != "script" {
        FlattenDeeper(children, depth, suffix);
      }
  }

  /** A list prints its content as it would stand outside the list, every
      line indented once more. */
  lemma ListIndents(name: string, attributes: map<string, Option<string>>, children: seq<Node>,
                    depth: nat, suffix: string)
    requires name == "ol" || name == "ul"
    ensures FlattenNode(Element(name, attributes, children), depth, suffix)
         == Printout(Indented(Flatten(children, depth, suffix).lines), Flatten(children, depth, suffix).aborted)
  {
    FlattenDeeper(children, depth, suffix);
  }
}
