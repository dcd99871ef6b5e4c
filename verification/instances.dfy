/**
  Instance extraction (`get_instances` in vlogai/vai.py and pyvai/vai.py). The parser is
  not modelled: its result is taken as input, as the list of module items of the first
  module definition, each instance with its declaration line, parameter arguments and port
  connections. The buffer supplies everything the parse tree does not: port-type tags,
  the `vai-auto-inst` directive, the terminating `;` and the indentation.
 */
module Instances {
  import opened Wrappers
  import opened Strings
  import opened OrderedMaps
  import opened Patterns
  import opened Records

  /** A port connection's actual expression as the parser prints it: its own text and the
      texts of its children (none for a plain identifier; `x`, `3`, `0` for `x[3:0]`). */
  datatype Actual = Actual(text: string, children: seq<string>)

  /** `.portname(actual)` on source line `lineno`. */
  datatype PortArg = PortArg(portname: string, actual: Actual, lineno: nat)

  /** One instantiation: instance name, module name, declaration line, the parameter
      arguments as (name, value text) and the port connections, in source order. */
  datatype InstNode = InstNode(name: string, mod: string, lineno: nat,
                               params: seq<(string, string)>, ports: seq<PortArg>)

  /** A module item: an instance list, or anything else (skipped). */
  datatype ModuleItem = InstanceList(instances: seq<InstNode>) | OtherItem

  /** What vlogai records for an instance that carries the directive. */
  datatype Instance = Instance(mod: string, beginLn: nat, endLn: nat, indent: nat,
                               params: ParamTable, ports: PortTable)

  /** What pyvai records: no indentation, and a single `port` dictionary that every port
      connection overwrites in turn (absent when there are no connections). */
  datatype PyInstance = PyInstance(mod: string, beginLn: nat, endLn: nat,
                                   params: ParamTable, port: Option<PortBinding>)

  /** Line numbers come from the parser and are 1-based; every port line is read from the
      buffer, so it must be one of its lines. */
  predicate NodeOk(buf: seq<string>, node: InstNode) {
    && node.lineno >= 1
    && forall j :: 0 <= j < |node.ports| ==> 1 <= node.ports[j].lineno <= |buf|
  }

  // ---------------------------------------------------------------------------
  // One port connection

  /** The instance-side name: the first child when there are children, else the text. */
  function InstPort(a: Actual): string {
    if |a.children| > 0 then a.children[0] else a.text
  }

  /** The slice text: nothing for a plain identifier, otherwise the children after the
      first joined by colons between brackets. */
  function SliceOf(a: Actual): (r: string)
    ensures r == "" <==> |a.children| == 0
    ensures |a.children| > 0 ==> |r| >= 2 && r[0] == '[' && r[|r| - 1] == ']'
  {
    if |a.children| > 0 then "[" + Join(a.children[1..], ":") + "]" else ""
  }

  /** The binding recorded for a port connection: the tag groups come from the first
      `//([WP]?)([IO]+)` on the connection's own line, and are empty without one. */
  function Binding(buf: seq<string>, p: PortArg): PortBinding
    requires 1 <= p.lineno <= |buf|
  {
    var tag := PortTag(buf[p.lineno - 1]);
    PortBinding(InstPort(p.actual), SliceOf(p.actual),
                if tag.Some? then tag.value.0 else "",
                if tag.Some? then tag.value.1 else "")
  }

  /** (formal name, binding) for each connection, in source order. */
  function PortPairs(buf: seq<string>, ports: seq<PortArg>): (r: seq<(string, PortBinding)>)
    requires forall j :: 0 <= j < |ports| ==> 1 <= ports[j].lineno <= |buf|
    ensures |r| == |ports|
  {
    seq(|ports|, j requires 0 <= j < |ports| => (ports[j].portname, Binding(buf, ports[j])))
  }

  /** The `port_dict` of an instance: a later connection to the same formal name
      replaces the earlier binding. */
  function PortTableOf(buf: seq<string>, ports: seq<PortArg>): PortTable
    requires forall j :: 0 <= j < |ports| ==> 1 <= ports[j].lineno <= |buf|
  {
    FromPairs(PortPairs(buf, ports))
  }

  // ---------------------------------------------------------------------------
  // Port line range

  function PortLines(ports: seq<PortArg>): (r: seq<nat>)
    ensures |r| == |ports|
    ensures forall j :: 0 <= j < |ports| ==> r[j] == ports[j].lineno
  {
    seq(|ports|, j requires 0 <= j < |ports| => ports[j].lineno)
  }

  function SeqMin(xs: seq<nat>): (m: nat)
    requires |xs| > 0
    ensures m in xs
    ensures forall j :: 0 <= j < |xs| ==> m <= xs[j]
  {
    if |xs| == 1 then xs[0]
    else
      var rest := SeqMin(xs[1..]);
      assert forall j :: 1 <= j < |xs| ==> xs[j] == xs[1..][j - 1];
      if xs[0] <= rest then xs[0] else rest
  }

  function SeqMax(xs: seq<nat>): (m: nat)
    requires |xs| > 0
    ensures m in xs
    ensures forall j :: 0 <= j < |xs| ==> xs[j] <= m
  {
    if |xs| == 1 then xs[0]
    else
      var rest := SeqMax(xs[1..]);
      assert forall j :: 1 <= j < |xs| ==> xs[j] == xs[1..][j - 1];
      if xs[0] >= rest then xs[0] else rest
  }

  /** `min_port_ln`: the smallest port line, or the line after the declaration. */
  function MinLine(node: InstNode): nat {
    if |node.ports| == 0 then node.lineno + 1 else SeqMin(PortLines(node.ports))
  }

  /** `max_port_ln`: the largest port line, or the line after the declaration. */
  function MaxLine(node: InstNode): nat {
    if |node.ports| == 0 then node.lineno + 1 else SeqMax(PortLines(node.ports))
  }

  /** Every port line lies between the two bounds. */
  lemma PortLineBounds(node: InstNode)
    ensures MinLine(node) <= MaxLine(node)
    ensures forall j :: 0 <= j < |node.ports| ==> MinLine(node) <= node.ports[j].lineno <= MaxLine(node)
  {
    if |node.ports| > 0 {
      assert PortLines(node.ports)[0] == node.ports[0].lineno;
    }
  }

  // ---------------------------------------------------------------------------
  // The directive, the end line, the record

  /** A line that is not a `//` comment and holds `<name> ( /* vai-auto-inst */`. */
  predicate DirectiveLine(line: string, name: string) {
    !IsCommentLine(line) && HasDirective(line, name)
  }

  /** The validation loop over a window of lines: some line is a directive line. */
  function AnyDirective(lines: seq<string>, name: string): (r: bool)
    ensures r ==> |lines| > 0
  {
    if |lines| == 0 then false
    else AnyDirective(lines[..|lines| - 1], name) || DirectiveLine(lines[|lines| - 1], name)
  }

  /** The window the directive is looked for in: from the declaration line up to, not
      including, the first port line, clipped to the buffer. */
  function DirectiveWindow(buf: seq<string>, node: InstNode): seq<string>
    requires NodeOk(buf, node)
  {
    Slice(buf, node.lineno - 1, MinLine(node) - 1)
  }

  /** A line that ends the instantiation: not a `//` comment, and holding a `;`. */
  predicate Terminates(line: string) {
    !IsCommentLine(line) && HasSemicolon(line)
  }

  /** The index of the first terminating line at or after index `k`, if any. */
  function EndFrom(buf: seq<string>, k: nat): (r: Option<nat>)
    ensures r.Some? ==> k <= r.value < |buf|
    decreases |buf| - k
  {
    if k >= |buf| then None
    else if Terminates(buf[k]) then Some(k)
    else EndFrom(buf, k + 1)
  }

  /** `end_ln`: the number of the first terminating line at or after line `mx`, or `mx`
      when no later line terminates. */
  function EndLine(buf: seq<string>, mx: nat): (r: nat)
    requires mx >= 1
    ensures r >= mx
  {
    match EndFrom(buf, mx - 1)
    case Some(k) => k + 1
    case None => mx
  }

  /** The instantiation carries the directive inside its window. */
  predicate Directed(buf: seq<string>, node: InstNode)
    requires NodeOk(buf, node)
  {
    AnyDirective(DirectiveWindow(buf, node), node.name)
  }

  /** vlogai: the record of one instantiation, or `None` when it lacks the directive. */
  function Record(buf: seq<string>, node: InstNode): Option<Instance>
    requires NodeOk(buf, node)
  {
    if !Directed(buf, node) then None
    else
      DirectedInBuffer(buf, node);
      Some(MakeInstance(buf, node))
  }

  /** A directive window that is not empty starts inside the buffer. */
  lemma DirectedInBuffer(buf: seq<string>, node: InstNode)
    requires NodeOk(buf, node) && Directed(buf, node)
    ensures node.lineno <= |buf|
  {
    assert |DirectiveWindow(buf, node)| > 0;
  }

  /** The record of an instantiation whose declaration line is a buffer line. */
  function MakeInstance(buf: seq<string>, node: InstNode): Instance
    requires NodeOk(buf, node) && node.lineno <= |buf|
  {
    Instance(node.mod, node.lineno, EndLine(buf, MaxLine(node)),
             LeadingSpaces(buf[node.lineno - 1]), FromPairs(node.params), PortTableOf(buf, node.ports))
  }

  /** pyvai's record: the same test and the same lines; the `port` entry holds the binding
      of the last connection. pyvai joins the children's parse-tree nodes into the slice,
      which only works when there is at most one child, hence the requires. */
  function PyRecord(buf: seq<string>, node: InstNode): Option<PyInstance>
    requires NodeOk(buf, node)
    requires forall j :: 0 <= j < |node.ports| ==> |node.ports[j].actual.children| <= 1
  {
    if Directed(buf, node) then Some(MakePyInstance(buf, node)) else None
  }

  function MakePyInstance(buf: seq<string>, node: InstNode): PyInstance
    requires NodeOk(buf, node)
  {
    var port := if |node.ports| == 0 then None
                else Some(Binding(buf, node.ports[|node.ports| - 1]));
    PyInstance(node.mod, node.lineno, EndLine(buf, MaxLine(node)), FromPairs(node.params), port)
  }

  // ---------------------------------------------------------------------------
  // The whole parse result

  /** The instances of all instance lists, in source order. */
  function Flatten(items: seq<ModuleItem>): seq<InstNode> {
    if |items| == 0 then []
    else
      var last := items[|items| - 1];
      Flatten(items[..|items| - 1]) + (if last.InstanceList? then last.instances else [])
  }

  predicate ItemsOk(buf: seq<string>, items: seq<ModuleItem>) {
    forall i, j :: 0 <= i < |items| && items[i].InstanceList? && 0 <= j < |items[i].instances| ==>
      NodeOk(buf, items[i].instances[j])
  }

  predicate NodesOk(buf: seq<string>, nodes: seq<InstNode>) {
    forall k :: 0 <= k < |nodes| ==> NodeOk(buf, nodes[k])
  }

  /** The (name, record) pairs of the entries that have a record, in order: the updates
      the loop makes to `inst_dict`. */
  function Kept<V>(names: seq<string>, recs: seq<Option<V>>): (r: seq<(string, V)>)
    requires |names| == |recs|
  {
    if |names| == 0 then []
    else
      var front := Kept(names[..|names| - 1], recs[..|recs| - 1]);
      match recs[|recs| - 1]
      case Some(v) => front + [(names[|names| - 1], v)]
      case None => front
  }

  function Names(nodes: seq<InstNode>): (r: seq<string>)
    ensures |r| == |nodes|
    ensures forall k :: 0 <= k < |nodes| ==> r[k] == nodes[k].name
  {
    seq(|nodes|, k requires 0 <= k < |nodes| => nodes[k].name)
  }

  /** The vlogai record of every instantiation, in order. */
  function RecordsOf(buf: seq<string>, nodes: seq<InstNode>): (r: seq<Option<Instance>>)
    requires NodesOk(buf, nodes)
    ensures |r| == |nodes|
    ensures forall k :: 0 <= k < |nodes| ==> r[k] == Record(buf, nodes[k])
  {
    seq(|nodes|, k requires 0 <= k < |nodes| && NodeOk(buf, nodes[k]) => Record(buf, nodes[k]))
  }

  /** vlogai `get_instances(flist, vim_buf)`: instance name to record; a later instance
      with the same name replaces the earlier record. */
  function GetInstances(buf: seq<string>, items: seq<ModuleItem>): OMap<string, Instance>
    requires ItemsOk(buf, items)
  {
    FlattenOk(buf, items);
    var nodes := Flatten(items);
    FromPairs(Kept(Names(nodes), RecordsOf(buf, nodes)))
  }

  /** `get_instances(flist, vim_buf, inst_name)`: the one record asked for, if present. */
  function GetInstance(buf: seq<string>, items: seq<ModuleItem>, name: string): Option<Instance>
    requires ItemsOk(buf, items)
  {
    Get(GetInstances(buf, items), name)
  }

  predicate PyNodesOk(buf: seq<string>, nodes: seq<InstNode>) {
    && NodesOk(buf, nodes)
    && forall k, j :: 0 <= k < |nodes| && 0 <= j < |nodes[k].ports| ==>
         |nodes[k].ports[j].actual.children| <= 1
  }

  /** The pyvai record of every instantiation, in order. */
  function PyRecordsOf(buf: seq<string>, nodes: seq<InstNode>): (r: seq<Option<PyInstance>>)
    requires PyNodesOk(buf, nodes)
    ensures |r| == |nodes|
    ensures forall k :: 0 <= k < |nodes| ==> r[k] == PyRecord(buf, nodes[k])
  {
    seq(|nodes|, k requires 0 <= k < |nodes| && NodeOk(buf, nodes[k])
                             && (forall j :: 0 <= j < |nodes[k].ports| ==> |nodes[k].ports[j].actual.children| <= 1)
                   => PyRecord(buf, nodes[k]))
  }

  /** pyvai `get_instances(flist, vim_buf)`. */
  function PyGetInstances(buf: seq<string>, items: seq<ModuleItem>): OMap<string, PyInstance>
    requires ItemsOk(buf, items)
    requires PyNodesOk(buf, Flatten(items))
  {
    var nodes := Flatten(items);
    FromPairs(Kept(Names(nodes), PyRecordsOf(buf, nodes)))
  }

  // ---------------------------------------------------------------------------
  // Lemmas

  /** Every instance of the flattened list comes from some instance list. */
  lemma {:induction false} FlattenOk(buf: seq<string>, items: seq<ModuleItem>)
    requires ItemsOk(buf, items)
    ensures NodesOk(buf, Flatten(items))
  {
    if |items| > 0 {
      var front := items[..|items| - 1];
      assert ItemsOk(buf, front) by {
        forall i, j | 0 <= i < |front| && front[i].InstanceList? && 0 <= j < |front[i].instances|
          ensures NodeOk(buf, front[i].instances[j])
        {
          assert front[i] == items[i];
        }
      }
      FlattenOk(buf, front);
    }
  }

  /** The validation loop decides exactly whether some line is a directive line. */
  lemma {:induction false} AnyDirectiveExists(lines: seq<string>, name: string)
    ensures AnyDirective(lines, name) <==> exists k :: 0 <= k < |lines| && DirectiveLine(lines[k], name)
  {
    if |lines| > 0 {
      var front := lines[..|lines| - 1];
      AnyDirectiveExists(front, name);
      if AnyDirective(front, name) {
        var k :| 0 <= k < |front| && DirectiveLine(front[k], name);
        assert lines[k] == front[k];
      }
      if exists k :: 0 <= k < |lines| && DirectiveLine(lines[k], name) {
        var k :| 0 <= k < |lines| && DirectiveLine(lines[k], name);
        if k < |lines| - 1 {
          assert front[k] == lines[k];
        }
      }
    }
  }

  /** The validation loop over the slice `buf[lo:hi]` tests exactly the lines with an
      index in [lo, hi) that exist. */
  lemma DirectiveWindowExists(buf: seq<string>, lo: nat, hi: nat, name: string)
    ensures AnyDirective(Slice(buf, lo, hi), name) <==>
              exists k :: lo <= k < hi && k < |buf| && DirectiveLine(buf[k], name)
  {
    var w := Slice(buf, lo, hi);
    AnyDirectiveExists(w, name);
    if exists k :: lo <= k < hi && k < |buf| && DirectiveLine(buf[k], name) {
      var k :| lo <= k < hi && k < |buf| && DirectiveLine(buf[k], name);
      assert w[k - lo] == buf[k];
    }
  }

  lemma DirectedExists(buf: seq<string>, node: InstNode)
    requires NodeOk(buf, node)
    ensures Directed(buf, node) <==>
              exists k :: node.lineno - 1 <= k < MinLine(node) - 1 && k < |buf|
                          && DirectiveLine(buf[k], node.name)
  {
    var lo, hi := node.lineno - 1, MinLine(node) - 1;
    assert Directed(buf, node) == AnyDirective(Slice(buf, lo, hi), node.name);
    DirectiveWindowExists(buf, lo, hi, node.name);
  }

  lemma RecordDirected(buf: seq<string>, node: InstNode)
    requires NodeOk(buf, node)
    ensures Record(buf, node).Some? <==> Directed(buf, node)
  {
  }

  /** An instantiation is kept exactly when one of the buffer lines from its declaration
      line up to (not including) its first port line is a non-comment directive line. */
  lemma RecordAccepted(buf: seq<string>, node: InstNode)
    requires NodeOk(buf, node)
    ensures Record(buf, node).Some? <==>
              exists k :: node.lineno - 1 <= k < MinLine(node) - 1 && k < |buf|
                          && DirectiveLine(buf[k], node.name)
  {
    DirectedExists(buf, node);
    RecordDirected(buf, node);
  }

  /** With no port connections the window is the declaration line alone. */
  lemma NoPortsWindow(buf: seq<string>, node: InstNode)
    requires NodeOk(buf, node) && |node.ports| == 0
    ensures Record(buf, node).Some? <==>
              node.lineno <= |buf| && DirectiveLine(buf[node.lineno - 1], node.name)
    ensures Record(buf, node).Some? ==> Record(buf, node).value.endLn >= node.lineno + 1
  {
    RecordAccepted(buf, node);
  }

  /** `end_ln` is the number of the first terminating line at or after line `mx`; when no
      line from `mx` on terminates, it is `mx` itself. */
  lemma EndLineSpec(buf: seq<string>, mx: nat)
    requires mx >= 1
    ensures (exists j :: mx - 1 <= j < |buf| && Terminates(buf[j])) ==>
              && EndLine(buf, mx) <= |buf| && Terminates(buf[EndLine(buf, mx) - 1])
              && forall j :: mx - 1 <= j < EndLine(buf, mx) - 1 ==> !Terminates(buf[j])
    ensures (forall j :: mx - 1 <= j < |buf| ==> !Terminates(buf[j])) ==> EndLine(buf, mx) == mx
  {
    EndFromSpec(buf, mx - 1);
  }

  /** The search for the terminating line finds the first one at or after index `k`. */
  lemma {:induction false} EndFromSpec(buf: seq<string>, k: nat)
    ensures var r := EndFrom(buf, k);
            && (r.Some? ==> k <= r.value < |buf| && Terminates(buf[r.value]))
            && (r.Some? ==> forall j :: k <= j < r.value ==> !Terminates(buf[j]))
            && (r.None? ==> forall j :: k <= j < |buf| ==> !Terminates(buf[j]))
    decreases |buf| - k
  {
    if k < |buf| && !Terminates(buf[k]) {
      EndFromSpec(buf, k + 1);
    }
  }

  /** A kept record starts at the declaration line, which is a buffer line, and takes its
      indentation from that line. */
  lemma RecordHeader(buf: seq<string>, node: InstNode)
    requires NodeOk(buf, node) && Record(buf, node).Some?
    ensures node.lineno <= |buf|
    ensures Record(buf, node).value.beginLn == node.lineno
    ensures Record(buf, node).value.indent == LeadingSpaces(buf[node.lineno - 1])
  {
    DirectedInBuffer(buf, node);
    InstanceHead(buf, node);
  }

  /** The header fields of a record come from the declaration line. */
  lemma InstanceHead(buf: seq<string>, node: InstNode)
    requires NodeOk(buf, node) && node.lineno <= |buf|
    ensures MakeInstance(buf, node).beginLn == node.lineno
    ensures MakeInstance(buf, node).indent == LeadingSpaces(buf[node.lineno - 1])
  {
  }

  /** A kept record's end line is at or after every port line. */
  lemma RecordSpan(buf: seq<string>, node: InstNode)
    requires NodeOk(buf, node) && Record(buf, node).Some?
    ensures MinLine(node) <= MaxLine(node) <= Record(buf, node).value.endLn
    ensures forall j :: 0 <= j < |node.ports| ==>
              MinLine(node) <= node.ports[j].lineno <= Record(buf, node).value.endLn
  {
    assert Record(buf, node).value.endLn == EndLine(buf, MaxLine(node));
    PortLineBounds(node);
  }

  /** The tag groups of a binding: the kind is empty, `W` or `P`; the direction is a
      non-empty run of `I`/`O` exactly when the connection's line holds a port-type tag,
      which then literally occurs there; a kind never comes without a direction. */
  lemma BindingTag(buf: seq<string>, p: PortArg)
    requires 1 <= p.lineno <= |buf|
    ensures var b := Binding(buf, p);
            var line := buf[p.lineno - 1];
            && b.kind in {"", "W", "P"}
            && (b.dir == "" <==> NoTagIn(line, 0, |line|))
            && (b.kind != "" ==> b.dir != "")
            && (forall k :: 0 <= k < |b.dir| ==> IsIO(b.dir[k]))
            && (b.dir != "" ==> exists q :: 0 <= q < |line| && At(line, q, "//" + b.kind + b.dir))
  {
    PortTagSpec(buf[p.lineno - 1]);
  }

  /** A ranged actual's slice lists the children after the first between brackets, and
      splitting its inside on `:` gives them back. */
  lemma SliceRoundTrip(a: Actual)
    requires |a.children| >= 2
    requires forall j :: 1 <= j < |a.children| ==> ':' !in a.children[j]
    ensures var s := SliceOf(a);
            Split(s[1..|s| - 1], ':') == a.children[1..]
  {
    var s := SliceOf(a);
    var inner := Join(a.children[1..], ":");
    assert s[1..|s| - 1] == inner;
    assert forall j :: 0 <= j < |a.children[1..]| ==> a.children[1..][j] == a.children[j + 1];
    SplitJoin(a.children[1..], ':');
  }

  /** A port's binding is that of its last connection: the table has an entry for every
      connected port name, and it holds the binding of the last connection of that name. */
  lemma PortTableGet(buf: seq<string>, ports: seq<PortArg>, name: string)
    requires forall j :: 0 <= j < |ports| ==> 1 <= ports[j].lineno <= |buf|
    ensures Get(PortTableOf(buf, ports), name).Some? <==>
              exists j :: 0 <= j < |ports| && ports[j].portname == name
    ensures forall j :: 0 <= j < |ports| && ports[j].portname == name &&
                        (forall i :: j < i < |ports| ==> ports[i].portname != name) ==>
              Get(PortTableOf(buf, ports), name) == Some(Binding(buf, ports[j]))
  {
    PortTableHas(buf, ports, name);
    forall j | 0 <= j < |ports| && ports[j].portname == name &&
               (forall i :: j < i < |ports| ==> ports[i].portname != name)
      ensures Get(PortTableOf(buf, ports), name) == Some(Binding(buf, ports[j]))
    {
      PortTableAt(buf, ports, j);
    }
  }

  /** The table has an entry for a name exactly when some connection is to that port. */
  lemma PortTableHas(buf: seq<string>, ports: seq<PortArg>, name: string)
    requires forall j :: 0 <= j < |ports| ==> 1 <= ports[j].lineno <= |buf|
    ensures Get(PortTableOf(buf, ports), name).Some? <==>
              exists j :: 0 <= j < |ports| && ports[j].portname == name
  {
    var pairs := PortPairs(buf, ports);
    FromPairsLookup(pairs, name);
    assert forall j :: 0 <= j < |pairs| ==> pairs[j].0 == ports[j].portname;
  }

  /** The connection at `j`, when no later connection has its name, gives that name's entry. */
  lemma PortTableAt(buf: seq<string>, ports: seq<PortArg>, j: int)
    requires forall j :: 0 <= j < |ports| ==> 1 <= ports[j].lineno <= |buf|
    requires 0 <= j < |ports|
    requires forall i :: j < i < |ports| ==> ports[i].portname != ports[j].portname
    ensures Get(PortTableOf(buf, ports), ports[j].portname) == Some(Binding(buf, ports[j]))
  {
    var pairs := PortPairs(buf, ports);
    assert pairs[j] == (ports[j].portname, Binding(buf, ports[j]));
    assert forall i :: j < i < |pairs| ==> pairs[i].0 == ports[i].portname;
    LastGetAt(pairs, ports[j].portname, j);
    FromPairsGet(pairs, ports[j].portname);
  }

  /** The names kept are exactly those of the entries that have a record. */
  lemma {:induction false} KeptKeys<V>(names: seq<string>, recs: seq<Option<V>>, name: string)
    requires |names| == |recs|
    ensures name in Keys(Kept(names, recs)) <==>
              exists k :: 0 <= k < |names| && names[k] == name && recs[k].Some?
  {
    if |names| > 0 {
      var fn, fr := names[..|names| - 1], recs[..|recs| - 1];
      KeptKeys(fn, fr, name);
      if exists k :: 0 <= k < |fn| && fn[k] == name && fr[k].Some? {
        var k :| 0 <= k < |fn| && fn[k] == name && fr[k].Some?;
        assert names[k] == fn[k] && recs[k] == fr[k];
      }
      if exists k :: 0 <= k < |names| && names[k] == name && recs[k].Some? {
        var k :| 0 <= k < |names| && names[k] == name && recs[k].Some?;
        if k < |names| - 1 {
          assert fn[k] == names[k] && fr[k] == recs[k];
        }
      }
    }
  }

  /** Entry `k` is the last entry named `name` that has a record. */
  predicate LastKept<V>(names: seq<string>, recs: seq<Option<V>>, name: string, k: int)
    requires |names| == |recs|
  {
    && 0 <= k < |names| && names[k] == name && recs[k].Some?
    && forall j :: k < j < |names| && names[j] == name ==> recs[j].None?
  }

  /** The value kept under a name is the record of the LAST entry with that name that has
      one. */
  lemma {:induction false} KeptLast<V>(names: seq<string>, recs: seq<Option<V>>, name: string)
    requires |names| == |recs|
    ensures LastGet(Kept(names, recs), name).Some? ==>
              exists k :: LastKept(names, recs, name, k) && recs[k] == LastGet(Kept(names, recs), name)
  {
    if |names| > 0 {
      var n := |names| - 1;
      var fn, fr := names[..n], recs[..n];
      var front := Kept(fn, fr);
      var kept := Kept(names, recs);
      KeptLast(fn, fr, name);
      if recs[n].Some? && names[n] == name {
        assert kept == front + [(name, recs[n].value)];
        assert LastGet(kept, name) == recs[n];
        assert LastKept(names, recs, name, n);
      } else {
        if recs[n].Some? {
          assert kept == front + [(names[n], recs[n].value)];
          assert kept[..|kept| - 1] == front;
        } else {
          assert kept == front;
        }
        assert LastGet(kept, name) == LastGet(front, name);
        if LastGet(kept, name).Some? {
          var k :| LastKept(fn, fr, name, k) && fr[k] == LastGet(front, name);
          assert forall j :: 0 <= j < n ==> names[j] == fn[j] && recs[j] == fr[j];
          assert LastKept(names, recs, name, k);
        }
      }
    }
  }

  /** Looking a name up in a dictionary built from the kept pairs: found exactly when some
      entry with the name has a record, and then it is the record of the last such entry. */
  lemma KeptLookup<V>(names: seq<string>, recs: seq<Option<V>>, name: string)
    requires |names| == |recs|
    ensures Get(FromPairs(Kept(names, recs)), name).Some? <==>
              exists k :: 0 <= k < |names| && names[k] == name && recs[k].Some?
    ensures Get(FromPairs(Kept(names, recs)), name).Some? ==>
              exists k :: LastKept(names, recs, name, k) && recs[k] == Get(FromPairs(Kept(names, recs)), name)
  {
    FromPairsGet(Kept(names, recs), name);
    LastGetSome(Kept(names, recs), name);
    KeptKeys(names, recs, name);
    KeptLast(names, recs, name);
  }

  /** `get_instances(..., inst_name)`: a name is found exactly when some instantiation
      with that name carries the directive. */
  lemma GetInstanceFound(buf: seq<string>, items: seq<ModuleItem>, name: string)
    requires ItemsOk(buf, items) && NodesOk(buf, Flatten(items))
    ensures var nodes := Flatten(items);
            GetInstance(buf, items, name).Some? <==>
              exists k :: 0 <= k < |nodes| && nodes[k].name == name && Record(buf, nodes[k]).Some?
  {
    var nodes := Flatten(items);
    var names, recs := Names(nodes), RecordsOf(buf, nodes);
    KeptLookup(names, recs, name);
    assert GetInstance(buf, items, name) == Get(FromPairs(Kept(names, recs)), name);
  }

  /** When found, the answer is the record of the last instantiation with that name that
      carries the directive: a later one replaces an earlier one. */
  lemma GetInstanceLast(buf: seq<string>, items: seq<ModuleItem>, name: string) returns (k: int)
    requires ItemsOk(buf, items) && NodesOk(buf, Flatten(items))
    ensures var nodes := Flatten(items);
            GetInstance(buf, items, name).Some? ==>
              && LastKept(Names(nodes), RecordsOf(buf, nodes), name, k)
              && Record(buf, nodes[k]) == GetInstance(buf, items, name)
  {
    var nodes := Flatten(items);
    var names, recs := Names(nodes), RecordsOf(buf, nodes);
    var r := GetInstance(buf, items, name);
    assert r == Get(FromPairs(Kept(names, recs)), name);
    KeptLookup(names, recs, name);
    k := 0;
    if r.Some? {
      k :| LastKept(names, recs, name, k) && recs[k] == r;
    }
  }

  /** The two variants keep the same instantiations with the same lines and parameters;
      pyvai's single port entry is the binding vlogai records under the formal name of the
      last connection. */
  lemma PyRecordAgrees(buf: seq<string>, node: InstNode)
    requires NodeOk(buf, node)
    requires forall j :: 0 <= j < |node.ports| ==> |node.ports[j].actual.children| <= 1
    ensures PyRecord(buf, node).Some? <==> Record(buf, node).Some?
    ensures Directed(buf, node) ==>
              var p, r := MakePyInstance(buf, node), MakeInstance(buf, node);
              p.mod == r.mod && p.beginLn == r.beginLn && p.endLn == r.endLn && p.params == r.params
  {
  }

  /** pyvai merges the fields of every connection's binding into the instance's one `port`
      dictionary, so each connection overwrites the one before: of two connections to
      different ports the vlogai port table (`PortTableOf`) keeps both, the pyvai record
      only the last. */
  lemma PyPortsCollapse(buf: seq<string>, node: InstNode)
    requires NodeOk(buf, node)
    requires |node.ports| >= 2 && node.ports[0].portname != node.ports[|node.ports| - 1].portname
    ensures |PortTableOf(buf, node.ports)| >= 2
    ensures MakePyInstance(buf, node).port == Some(Binding(buf, node.ports[|node.ports| - 1]))
  {
    var last := node.ports[|node.ports| - 1];
    assert MakePyInstance(buf, node).port == Some(Binding(buf, last));
    TwoPorts(buf, node.ports);
  }

  /** Connections to two different ports leave two entries in the port table. */
  lemma TwoPorts(buf: seq<string>, ports: seq<PortArg>)
    requires forall j :: 0 <= j < |ports| ==> 1 <= ports[j].lineno <= |buf|
    requires |ports| >= 2 && ports[0].portname != ports[|ports| - 1].portname
    ensures |PortTableOf(buf, ports)| >= 2
  {
    var a, b := ports[0].portname, ports[|ports| - 1].portname;
    PortTableGet(buf, ports, a);
    PortTableGet(buf, ports, b);
    TwoKeys(PortTableOf(buf, ports), a, b);
  }

  /** pyvai's single port entry is what vlogai records under the formal name of the last
      connection, and it is absent exactly when vlogai's port table is empty. */
  lemma PyPortAgrees(buf: seq<string>, node: InstNode)
    requires NodeOk(buf, node) && Directed(buf, node)
    ensures var p, r := MakePyInstance(buf, node), MakeInstance(buf, node);
            && (p.port.Some? <==> |r.ports| > 0)
            && (p.port.Some? ==> Get(r.ports, node.ports[|node.ports| - 1].portname) == p.port)
  {
    if |node.ports| > 0 {
      var name := node.ports[|node.ports| - 1].portname;
      PortTableGet(buf, node.ports, name);
      assert Get(MakeInstance(buf, node).ports, name).Some?;
    } else {
      assert MakeInstance(buf, node).ports == FromPairs([]);
    }
  }
}
