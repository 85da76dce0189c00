/** The flow-diagram page: which side of the diagram each node is pushed to
    for a view, the per-type colour domains rebuilt from every loaded graph,
    the colour of a node, the two flow builders that turn contract rows into
    two-hop links, and the check a loaded graph must pass before it is drawn.
    The layout itself (`d3.sankey`) is a library and is not modelled. */
module Sankey {
  import opened Seqs
  import StateMap

  // ---------------------------------------------------------------------
  // Node alignment

  /** The node alignments the page hands to the layout. */
  datatype Align = Left | Right | Justify

  /** Multi-level flows laid out justified. */
  const JustifiedViews: seq<string> :=
    ["agency_state_recipient", "agency_category_state", "state_award_business", "agency_state_action_business"]

  /** Views whose final node type is pushed to the right. */
  const RightEndingViews: seq<string> := ["state_action_type", "state_business_size", "state_org_type"]

  /** The final node types of the right-ending views. */
  const RightEndingTypes: seq<string> := ["action_type", "business_size", "org_type"]

  /** Views whose recipients are pushed to the right. */
  const RightRecipientViews: seq<string> :=
    ["agency_recipient", "category_recipient", "business_size", "org_type", "action_type", "award_type"]

  /** The alignment `getNodeAlignment(view)` selects for a node of type
      `nodeType`: the three lists are tried in order and anything else is
      left-aligned. The lists share no view, so their order does not matter:
      the selection is justified exactly for the justified views, and right
      exactly for the final types of a right-ending view and the recipients
      of a recipient view. */
  function NodeAlign(view: string, nodeType: string): (a: Align)
    ensures a == Justify <==> view in JustifiedViews
    ensures a == Right <==>
      || (view in RightEndingViews && nodeType in RightEndingTypes)
      || (view in RightRecipientViews && nodeType == "recipient")
  {
    if view in JustifiedViews then Justify
    else if view in RightEndingViews then (if nodeType in RightEndingTypes then Right else Left)
    else if view in RightRecipientViews then (if nodeType == "recipient" then Right else Left)
    else Left
  }

  /** What `getNodeAlignment(view)` returns: one alignment for every node,
      or, for the right-ending and recipient views, a function of the node's
      type whose results are alignments themselves. */
  datatype Selection = Whole(align: Align) | PerNode(pick: string -> Align)

  function Picked(s: Selection, nodeType: string): Align {
    match s
    case Whole(a) => a
    case PerNode(pick) => pick(nodeType)
  }

  /** `getNodeAlignment`: a per-node function is returned exactly for the
      right-ending and recipient views, and for every node type the
      alignment selected is `NodeAlign`'s. */
  function GetNodeAlignment(view: string): (s: Selection)
    ensures s.PerNode? <==> view in RightEndingViews || view in RightRecipientViews
    ensures forall t :: Picked(s, t) == NodeAlign(view, t)
  {
    if view in JustifiedViews then Whole(Justify)
    else if view in RightEndingViews then PerNode(t => if t in RightEndingTypes then Right else Left)
    else if view in RightRecipientViews then PerNode(t => if t == "recipient" then Right else Left)
    else Whole(Left)
  }

  /** Of the twelve views the page offers, `agency_state`, `award_type_state`
      and `action_type_state` are in none of the lists and select the left
      alignment for every node; of the recipient views only `business_size`
      and `org_type` are offered. */
  lemma OfferedViews(nodeType: string)
    ensures NodeAlign("agency_state", nodeType) == Left
    ensures NodeAlign("award_type_state", nodeType) == Left
    ensures NodeAlign("action_type_state", nodeType) == Left
    ensures NodeAlign("business_size", nodeType) == Right <==> nodeType == "recipient"
    ensures NodeAlign("org_type", nodeType) == Right <==> nodeType == "recipient"
    ensures NodeAlign("state_org_type", nodeType) == Right <==> nodeType in RightEndingTypes
  {
    assert "agency_state" !in JustifiedViews + RightEndingViews + RightRecipientViews;
    assert "award_type_state" !in JustifiedViews + RightEndingViews + RightRecipientViews;
    assert "action_type_state" !in JustifiedViews + RightEndingViews + RightRecipientViews;
  }

  // ---------------------------------------------------------------------
  // Colour domains

  /** A node of a loaded graph: its name and its type. */
  datatype Node = Node(name: string, nodeType: string)

  /** A link of a loaded or built graph, between node names. */
  datatype Link = Link(source: string, target: string, value: real)

  /** The seven node types with an ordinal colour scale of their own, and the
      nine-colour scheme each scale draws from. */
  const Schemes: map<string, string> := map[
    "agency" := "Blues",
    "recipient" := "Oranges",
    "category" := "Purples",
    "business_size" := "YlGnBu",
    "org_type" := "Reds",
    "action_type" := "BrBG",
    "award_type" := "PRGn"
  ]

  const SchemeSize: nat := 9

  /** The names of the nodes of type `t`, in node order, repeats kept. */
  function NamesOfType(nodes: seq<Node>, t: string): (r: seq<string>)
    ensures forall x :: x in r <==> Node(x, t) in nodes
  {
    if |nodes| == 0 then []
    else (if nodes[0].nodeType == t then [nodes[0].name] else []) + NamesOfType(nodes[1..], t)
  }

  /** The name set of type `t` after `updateColorDomains`: each name of a
      node of that type once, in order of first occurrence. */
  function Domain(nodes: seq<Node>, t: string): (d: seq<string>)
    ensures NoDuplicates(d)
    ensures forall x :: x in d <==> Node(x, t) in nodes
  {
    Distinct(NamesOfType(nodes, t))
  }

  /** `updateColorDomains`: every scale's domain is rebuilt from the loaded
      nodes alone, so nothing of an earlier graph survives, and a node whose
      type has no scale is ignored. */
  function Domains(nodes: seq<Node>): (d: map<string, seq<string>>)
    ensures d.Keys == Schemes.Keys
    ensures forall t :: t in d ==> NoDuplicates(d[t]) && forall x :: x in d[t] <==> Node(x, t) in nodes
  {
    map t | t in Schemes :: Domain(nodes, t)
  }

  lemma {:induction false} NamesOfTypeAppend(nodes: seq<Node>, n: Node, t: string)
    ensures NamesOfType(nodes + [n], t) == NamesOfType(nodes, t) + (if n.nodeType == t then [n.name] else [])
  {
    if |nodes| > 0 {
      assert (nodes + [n])[1..] == nodes[1..] + [n];
      NamesOfTypeAppend(nodes[1..], n, t);
    }
  }

  /** A node of a type without a scale leaves every domain as it was. */
  lemma UnknownTypeIgnored(nodes: seq<Node>, n: Node)
    requires n.nodeType !in Schemes
    ensures Domains(nodes + [n]) == Domains(nodes)
  {
    forall t | t in Schemes
      ensures Domain(nodes + [n], t) == Domain(nodes, t)
    {
      OtherTypeIgnored(nodes, n, t);
    }
    DomainsPointwise(nodes + [n], nodes);
  }

  lemma OtherTypeIgnored(nodes: seq<Node>, n: Node, t: string)
    requires n.nodeType != t
    ensures Domain(nodes + [n], t) == Domain(nodes, t)
  {
    NamesOfTypeAppend(nodes, n, t);
    assert NamesOfType(nodes + [n], t) == NamesOfType(nodes, t);
  }

  lemma DomainsPointwise(a: seq<Node>, b: seq<Node>)
    requires forall t :: t in Schemes ==> Domain(a, t) == Domain(b, t)
    ensures Domains(a) == Domains(b)
  {
  }

  // ---------------------------------------------------------------------
  // Node colour

  /** A colour: a fixed one, or a slot of a nine-colour scheme. */
  datatype Color = Fixed(hex: string) | Scheme(scheme: string, slot: nat)

  const UnknownTypeColor: string := "#999"

  /** An ordinal scale: the position of `name` in the domain, cycling through
      the scheme; a name outside the domain takes the next position. */
  function Slot(domain: seq<string>, name: string): (s: nat)
    ensures s < SchemeSize
  {
    (if name in domain then IndexOf(domain, name) else |domain|) % SchemeSize
  }

  /** `getNodeColor` once the domains are built from `nodes`. */
  function NodeColor(nodes: seq<Node>, n: Node): (c: Color)
    ensures n.nodeType == "state" && n.name in StateMap.StateColors ==> c == Fixed(StateMap.StateColors[n.name])
    ensures c.Scheme? <==> n.nodeType in Schemes
    ensures c.Scheme? ==> c.scheme == Schemes[n.nodeType]
    ensures c == Fixed(UnknownTypeColor) <==> n.nodeType !in Schemes && !(n.nodeType == "state" && n.name in StateMap.StateColors)
  {
    if n.nodeType == "state" && n.name in StateMap.StateColors then Fixed(StateMap.StateColors[n.name])
    else if n.nodeType in Schemes then Scheme(Schemes[n.nodeType], Slot(Domain(nodes, n.nodeType), n.name))
    else Fixed(UnknownTypeColor)
  }

  /** Two nodes of the same scaled type share a colour exactly when their
      names' first positions in the type's domain agree modulo nine. */
  lemma SameTypeColors(nodes: seq<Node>, a: Node, b: Node)
    requires a in nodes && b in nodes
    requires a.nodeType == b.nodeType && a.nodeType in Schemes
    ensures var d := Domain(nodes, a.nodeType);
      && a.name in d && b.name in d
      && (NodeColor(nodes, a) == NodeColor(nodes, b) <==> IndexOf(d, a.name) % SchemeSize == IndexOf(d, b.name) % SchemeSize)
  {
    var t := a.nodeType;
    var d := Domain(nodes, t);
    assert Node(a.name, t) == a && Node(b.name, t) == b;
    assert NodeColor(nodes, a) == Scheme(Schemes[t], IndexOf(d, a.name) % SchemeSize);
    assert NodeColor(nodes, b) == Scheme(Schemes[t], IndexOf(d, b.name) % SchemeSize);
  }

  /** The first nine names of a type all get different colours. */
  lemma FirstNineDistinct(nodes: seq<Node>, a: Node, b: Node)
    requires a in nodes && b in nodes
    requires a.nodeType == b.nodeType && a.nodeType in Schemes && a.name != b.name
    requires var d := Domain(nodes, a.nodeType);
      a.name in d && b.name in d && IndexOf(d, a.name) < SchemeSize && IndexOf(d, b.name) < SchemeSize
    ensures NodeColor(nodes, a) != NodeColor(nodes, b)
  {
    var d := Domain(nodes, a.nodeType);
    SameTypeColors(nodes, a, b);
    var i, j := IndexOf(d, a.name), IndexOf(d, b.name);
    assert i != j;
    SmallMod(i, SchemeSize);
    SmallMod(j, SchemeSize);
  }

  lemma SmallMod(i: nat, k: nat)
    requires i < k
    ensures i % k == i
  {
  }

  // ---------------------------------------------------------------------
  // Flow builders

  /** A contract row as the flow builders read it. */
  datatype Row = Row(agency: string, recipient: string, state: string, category: string, amount: real)

  /** A built graph: the node names in order and the links. */
  datatype Graph = Graph(nodes: seq<string>, links: seq<Link>)

  /** The states both builders start their state set with. */
  const FixedStates: seq<string> := ["CA", "MD", "VA"]

  /** Two links per row, `first -> middle` then `middle -> last`, both carrying
      the row's amount. */
  function TwoHop(data: seq<Row>, first: Row -> string, middle: Row -> string, last: Row -> string): (ls: seq<Link>)
    ensures |ls| == 2 * |data|
    ensures forall i :: 0 <= i < |data| ==>
      && ls[2 * i] == Link(first(data[i]), middle(data[i]), data[i].amount)
      && ls[2 * i + 1] == Link(middle(data[i]), last(data[i]), data[i].amount)
  {
    if |data| == 0 then []
    else
      var r := data[0];
      var rest := TwoHop(data[1..], first, middle, last);
      assert forall i :: 1 <= i < |data| ==> data[i] == data[1..][i - 1];
      [Link(first(r), middle(r), r.amount), Link(middle(r), last(r), r.amount)] + rest
  }

  function Agency(r: Row): string { r.agency }
  function State(r: Row): string { r.state }
  function Recipient(r: Row): string { r.recipient }
  function CategoryOf(r: Row): string { r.category }

  function Field(data: seq<Row>, f: Row -> string): (r: seq<string>)
    ensures |r| == |data| && forall i :: 0 <= i < |data| ==> r[i] == f(data[i])
  {
    seq(|data|, i requires 0 <= i < |data| => f(data[i]))
  }

  /** The values of one field of the rows as a JavaScript `Set` collects
      them: each once, in order of first occurrence. */
  function FieldSet(data: seq<Row>, f: Row -> string): (r: seq<string>)
    ensures NoDuplicates(r)
    ensures forall x :: x in r <==> exists i :: 0 <= i < |data| && f(data[i]) == x
  {
    var all := Field(data, f);
    assert forall i :: 0 <= i < |data| ==> all[i] == f(data[i]);
    Distinct(all)
  }

  /** `processAgencyFlow`: agency -> state -> recipient. The nodes are the
      agency set, the fixed states, then the recipient set: repeats are
      removed within each part but not across parts, and the rows' own states
      are never added. */
  function AgencyFlow(data: seq<Row>): (g: Graph)
    ensures g.links == TwoHop(data, Agency, State, Recipient)
    ensures g.nodes == FieldSet(data, Agency) + FixedStates + FieldSet(data, Recipient)
  {
    Graph(FieldSet(data, Agency) + FixedStates + FieldSet(data, Recipient),
          TwoHop(data, Agency, State, Recipient))
  }

  /** `processStateCategoryFlow`: state -> category -> recipient, but only the
      fixed states and the category set become nodes. */
  function StateCategoryFlow(data: seq<Row>): (g: Graph)
    ensures g.links == TwoHop(data, State, CategoryOf, Recipient)
    ensures g.nodes == FixedStates + FieldSet(data, CategoryOf)
  {
    Graph(FixedStates + FieldSet(data, CategoryOf), TwoHop(data, State, CategoryOf, Recipient))
  }

  /** The agency and recipient ends of a row's links are always nodes; the
      state in between is a node exactly when it is one of the fixed states
      or happens to be the name of some row's agency or recipient. */
  lemma AgencyFlowResolves(data: seq<Row>, i: nat)
    requires i < |data|
    ensures var g := AgencyFlow(data);
      && g.links[2 * i].source in g.nodes
      && g.links[2 * i + 1].target in g.nodes
      && (g.links[2 * i].target in g.nodes <==>
            || data[i].state in FixedStates
            || exists j :: 0 <= j < |data| && (data[j].agency == data[i].state || data[j].recipient == data[i].state))
  {
    var g := AgencyFlow(data);
    var agencies, recipients := FieldSet(data, Agency), FieldSet(data, Recipient);
    assert Agency(data[i]) == data[i].agency && Recipient(data[i]) == data[i].recipient;
    var st := data[i].state;
    assert g.links[2 * i].target == st;
    assert st in g.nodes <==> st in agencies || st in FixedStates || st in recipients;
    assert st in agencies <==> exists j :: 0 <= j < |data| && data[j].agency == st by {
      assert forall j :: 0 <= j < |data| ==> Agency(data[j]) == data[j].agency;
    }
    assert st in recipients <==> exists j :: 0 <= j < |data| && data[j].recipient == st by {
      assert forall j :: 0 <= j < |data| ==> Recipient(data[j]) == data[j].recipient;
    }
  }

  /** In the state-category flow the recipient a row's second link points to
      is a node only when it happens to share its name with a fixed state or a
      category. */
  lemma StateCategoryRecipients(data: seq<Row>, i: nat)
    requires i < |data|
    ensures var g := StateCategoryFlow(data);
      && g.links[2 * i + 1].source in g.nodes
      && (g.links[2 * i + 1].target in g.nodes <==>
            data[i].recipient in FixedStates || exists j :: 0 <= j < |data| && data[j].category == data[i].recipient)
  {
    assert CategoryOf(data[i]) == data[i].category;
  }

  /** The value carried into and out of a node. */
  function Inflow(ls: seq<Link>, m: string): real {
    if |ls| == 0 then 0.0 else (if ls[0].target == m then ls[0].value else 0.0) + Inflow(ls[1..], m)
  }

  function Outflow(ls: seq<Link>, m: string): real {
    if |ls| == 0 then 0.0 else (if ls[0].source == m then ls[0].value else 0.0) + Outflow(ls[1..], m)
  }

  /** Flow is conserved at every middle node whose name is not also the first
      or the last name of some row: what comes in goes out. */
  lemma {:induction false} Conservation(data: seq<Row>, first: Row -> string, middle: Row -> string, last: Row -> string, m: string)
    requires forall i :: 0 <= i < |data| ==> first(data[i]) != m && last(data[i]) != m
    ensures Inflow(TwoHop(data, first, middle, last), m) == Outflow(TwoHop(data, first, middle, last), m)
  {
    if |data| > 0 {
      var ls := TwoHop(data, first, middle, last);
      var rest := TwoHop(data[1..], first, middle, last);
      assert ls[1..][1..] == rest;
      Conservation(data[1..], first, middle, last, m);
    }
  }

  // ---------------------------------------------------------------------
  // Loading a view

  /** What the JSON request for a view yields: nothing on a failed request or
      a null body, otherwise the `nodes` and `links` fields when present. */
  datatype Loaded = Loaded(nodes: Option<seq<Node>>, links: Option<seq<Link>>)

  datatype LoadError = InvalidFormat | EmptyData

  /** The two checks made before a loaded graph is drawn. */
  function Validate(data: Option<Loaded>): (r: Result<(seq<Node>, seq<Link>), LoadError>)
    ensures r.Ok? <==> data.Some? && data.value.nodes.Some? && data.value.links.Some?
                       && |data.value.nodes.value| > 0 && |data.value.links.value| > 0
    ensures r == Err(InvalidFormat) <==> data.None? || data.value.nodes.None? || data.value.links.None?
    ensures r.Ok? ==> r.value == (data.value.nodes.value, data.value.links.value)
  {
    match data
    case None => Err(InvalidFormat)
    case Some(Loaded(nodes, links)) =>
      if nodes.None? || links.None? then Err(InvalidFormat)
      else if |nodes.value| == 0 || |links.value| == 0 then Err(EmptyData)
      else Ok((nodes.value, links.value))
  }

  /** What the diagram area shows. */
  datatype Screen = Diagram(nodes: seq<Node>, links: seq<Link>) | ErrorMessage

  /** The page: the colour domains and the diagram area. */
  datatype Page = Page(domains: map<string, seq<string>>, screen: Screen)

  /** `loadAndDisplayView`: a graph that fails a check leaves the colour
      domains as they were and shows the error message. One that passes
      rebuilds the domains first; it is then drawn when the layout succeeds
      (`laidOut`), and otherwise the error message shows over the rebuilt
      domains. */
  function LoadView(p: Page, data: Option<Loaded>, laidOut: bool): (q: Page)
    ensures Validate(data).Err? ==> q == Page(p.domains, ErrorMessage)
    ensures q.screen.Diagram? <==> Validate(data).Ok? && laidOut
    ensures Validate(data).Ok? && !laidOut ==> q.screen == ErrorMessage
    ensures q.screen.Diagram? ==> q.screen.nodes == data.value.nodes.value && q.screen.links == data.value.links.value
    ensures Validate(data).Ok? ==>
      && q.domains.Keys == Schemes.Keys
      && forall t, x :: t in q.domains ==> (x in q.domains[t] <==> Node(x, t) in data.value.nodes.value)
  {
    match Validate(data)
    case Err(_) => Page(p.domains, ErrorMessage)
    case Ok((nodes, links)) =>
      Page(Domains(nodes), if laidOut then Diagram(nodes, links) else ErrorMessage)
  }
}
