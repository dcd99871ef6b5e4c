/**
  Code generation: the instantiation text (`generate_inst`, in its vlogai and pyvai
  forms) and the wire and port declaration blocks (`generate_wire_declare`,
  `generate_port_declare`, `generate_declares`). Every generator aligns its columns in two
  passes: the widest entry of a column fixes its width, and every entry is padded to it.
 */
module CodeGen {
  import opened Wrappers
  import opened Strings
  import opened OrderedMaps
  import opened Records
  import opened Patterns
  import opened Instances

  /** vlogai marks the instance header with the `vai-auto-inst` directive and comments each
      port with its kind and direction; pyvai does neither and comments the direction only. */
  datatype Variant = Vlogai | Pyvai

  // ---------------------------------------------------------------------------
  // Columns

  /** The short name of every parameter (the last segment of its dotted name). */
  function ShortNames(params: ParamTable): (r: seq<string>)
    ensures |r| == |params|
  {
    seq(|params|, i requires 0 <= i < |params| => LastPiece(params[i].0, '.'))
  }

  /** `instp + slice`: the text inside the parentheses of a port connection. */
  function Actual(b: PortBinding): string {
    b.instp + b.slice
  }

  function Actuals(ports: PortTable): (r: seq<string>)
    ensures |r| == |ports|
  {
    seq(|ports|, i requires 0 <= i < |ports| => Actual(ports[i].1))
  }

  function Slices(ports: PortTable): (r: seq<string>)
    ensures |r| == |ports|
  {
    seq(|ports|, i requires 0 <= i < |ports| => ports[i].1.slice)
  }

  function Instps(ports: PortTable): (r: seq<string>)
    ensures |r| == |ports|
  {
    seq(|ports|, i requires 0 <= i < |ports| => ports[i].1.instp)
  }

  /** One connection of an instance: the name padded to `wk`, an opening parenthesis, the
      value padded to `wv`, then `tail`. */
  function Connection(name: string, value: string, wk: nat, wv: nat, tail: string): string {
    PadRight(name, wk) + " (" + PadRight(value, wv) + tail
  }

  // ---------------------------------------------------------------------------
  // generate_inst

  /** The parameter connections, both columns padded to their widest entry. */
  function ParamEntries(params: ParamTable): (r: seq<string>)
    requires |params| > 0
    ensures |r| == |params|
  {
    var wk := MaxLen(ShortNames(params));
    var wv := MaxLen(Values(params));
    seq(|params|, i requires 0 <= i < |params| => Connection(LastPiece(params[i].0, '.'), params[i].1, wk, wv, ")"))
  }

  /** The tags a port's comment carries: kind and direction, or the direction alone. */
  function PortTags(v: Variant, b: PortBinding): string {
    if v.Vlogai? then b.kind + b.dir else b.dir
  }

  /** The comment closing a port connection. */
  function PortComment(v: Variant, b: PortBinding): string {
    "//" + PortTags(v, b)
  }

  /** The port connections, both columns padded to their widest entry. */
  function PortEntries(v: Variant, ports: PortTable): (r: seq<string>)
    requires |ports| > 0
    ensures |r| == |ports|
  {
    var wk := MaxLen(Keys(ports));
    var wv := MaxLen(Actuals(ports));
    seq(|ports|, i requires 0 <= i < |ports| =>
      Connection(ports[i].0, Actual(ports[i].1), wk, wv, ") " + PortComment(v, ports[i].1)))
  }

  /** What follows the instance name on its header line. */
  function Opener(v: Variant): string {
    if v.Vlogai? then " ( /* vai-auto-inst */" else " ("
  }

  /** `generate_inst(inst, indent)`. The source raises on an empty port table (`max` of an
      empty sequence), hence the requires. */
  function GenerateInst(v: Variant, mod: string, params: ParamTable, ports: PortTable,
                        inst: string, indent: nat): string
    requires |ports| > 0
  {
    var ind0 := Spaces(indent);
    var ind1 := ind0 + "    ";
    var head := ind0 + mod + " ";
    var paramBlock :=
      if |params| > 0 then
        var paramText := ind1 + " ." + Join(ParamEntries(params), "\n" + ind1 + ",.");
        "#(" + "\n" + paramText + "\n" + ind0 + ") "
      else "";
    var header := head + paramBlock + inst + Opener(v);
    var portText := ind1 + " ." + Join(PortEntries(v, ports), "\n" + ind1 + ",.");
    var close := ind0 + "); // end of " + inst;
    header + "\n" + portText + "\n" + close
  }

  /** A list of entries one per line: the first behind `<ind> .`, the others behind `<ind>,.`. */
  function Block(ind: string, entries: seq<string>): (r: seq<string>)
    requires |entries| > 0
    ensures |r| == |entries|
  {
    [ind + " ." + entries[0]] + Prefixed(ind + ",.", entries[1..])
  }

  /** The lines in front of the instance-name line: the module name and the parameter
      block, or nothing when there are no parameters. */
  function TopLines(mod: string, params: ParamTable, indent: nat): seq<string> {
    if |params| > 0 then [Spaces(indent) + mod + " " + "#("] + Block(Spaces(indent) + "    ", ParamEntries(params))
    else []
  }

  /** The instance-name line up to its opener. */
  function HeadStem(mod: string, params: ParamTable, inst: string, indent: nat): string {
    if |params| > 0 then Spaces(indent) + ") " + inst else Spaces(indent) + mod + " " + inst
  }

  /** The instantiation as a list of lines: the header (with the parameter block when there
      are parameters), one line per port, and the closing line. */
  function InstLines(v: Variant, mod: string, params: ParamTable, ports: PortTable,
                     inst: string, indent: nat): seq<string>
    requires |ports| > 0
  {
    TopLines(mod, params, indent) + [HeadLine(v, mod, params, inst, indent)] + PortBlock(v, ports, indent)
      + [CloseLine(inst, indent)]
  }

  /** The instance-name line, ending in the opener. */
  function HeadLine(v: Variant, mod: string, params: ParamTable, inst: string, indent: nat): string {
    HeadStem(mod, params, inst, indent) + Opener(v)
  }

  /** The port lines, indented one level below the instantiation. */
  function PortBlock(v: Variant, ports: PortTable, indent: nat): (r: seq<string>)
    requires |ports| > 0
    ensures |r| == |ports|
  {
    Block(Spaces(indent) + "    ", PortEntries(v, ports))
  }

  /** The closing line, naming the instance. */
  function CloseLine(inst: string, indent: nat): string {
    Spaces(indent) + "); // end of " + inst
  }

  /** The index in `InstLines` of the line that carries the instance name. */
  function HeaderIndex(params: ParamTable): nat {
    if |params| > 0 then |params| + 1 else 0
  }

  // ---------------------------------------------------------------------------
  // Declarations

  /** `input`, `output`, or `inout` for any other direction tag. */
  function DirWord(dir: string): string {
    if dir == "I" then "input" else if dir == "O" then "output" else "inout"
  }

  /** A wire declaration: the slice padded to `ws` and the name padded to `wi`. */
  function WireEntry(b: PortBinding, ws: nat, wi: nat): string {
    "wire " + PadRight(b.slice, ws) + " " + PadRight(b.instp, wi) + ";"
  }

  /** A port declaration: the direction keyword, the slice padded to `ws`, then the name. */
  function PortDeclEntry(b: PortBinding, ws: nat): string {
    DirWord(b.dir) + " " + PadRight(b.slice, ws) + " " + b.instp
  }

  /** Whether a port is of the given kind (`W` for a wire, `P` for an external port). */
  function OfKind(kind: string): PortBinding -> bool {
    (b: PortBinding) => b.kind == kind
  }

  /** A wire declaration keyed by the name it declares. */
  function WireItem(ws: nat, wi: nat): PortBinding -> (string, string) {
    (b: PortBinding) => (b.instp, WireEntry(b, ws, wi))
  }

  /** A port declaration keyed by the name it declares. */
  function PortItem(ws: nat): PortBinding -> (string, string) {
    (b: PortBinding) => (b.instp, PortDeclEntry(b, ws))
  }

  /** (instp, declaration) for every port of kind `W`, in table order; the widths are those
      of the widest slice and the widest instance name over ALL ports of the table. */
  function WirePairs(ports: PortTable): seq<(string, string)>
    requires |ports| > 0
  {
    Collect(Values(ports), OfKind("W"), WireItem(MaxLen(Slices(ports)), MaxLen(Instps(ports))))
  }

  /** (instp, declaration) for every port of kind `P`, in table order. */
  function PortDeclPairs(ports: PortTable): seq<(string, string)>
    requires |ports| > 0
  {
    Collect(Values(ports), OfKind("P"), PortItem(MaxLen(Slices(ports))))
  }

  /** `generate_wire_declare(indent)`: one wire per `W` port, one per line. */
  function GenerateWireDeclare(ports: PortTable, indent: nat): string
    requires |ports| > 0
  {
    var ind := Spaces(indent);
    ind + Join(Values(WirePairs(ports)), "\n" + ind)
  }

  /** `generate_port_declare(indent)`: one port per `P` port, every line after the first
      starting with a comma. */
  function GeneratePortDeclare(ports: PortTable, indent: nat): string
    requires |ports| > 0
  {
    var ind := Spaces(indent);
    var lead := ind + ",";
    ind + Join(Values(PortDeclPairs(ports)), "\n" + lead)
  }

  predicate AllHavePorts(insts: seq<Instance>) {
    forall i :: 0 <= i < |insts| ==> |insts[i].ports| > 0
  }

  /** The wires of every instance, keyed by name, in instance order. */
  function WireLists(insts: seq<Instance>): (r: seq<seq<(string, string)>>)
    requires AllHavePorts(insts)
    ensures |r| == |insts|
  {
    seq(|insts|, i requires 0 <= i < |insts| && AllHavePorts(insts) => WirePairs(insts[i].ports))
  }

  function PortLists(insts: seq<Instance>): (r: seq<seq<(string, string)>>)
    requires AllHavePorts(insts)
    ensures |r| == |insts|
  {
    seq(|insts|, i requires 0 <= i < |insts| && AllHavePorts(insts) => PortDeclPairs(insts[i].ports))
  }

  /** The wire dictionary after the instances in order: each instance's wires, gathered in a
      dictionary of their own, update the dictionary of the instances before it. */
  function WireDict(insts: seq<Instance>): OMap<string, string>
    requires AllHavePorts(insts)
  {
    UpdateAll(WireLists(insts))
  }

  function PortDict(insts: seq<Instance>): OMap<string, string>
    requires AllHavePorts(insts)
  {
    UpdateAll(PortLists(insts))
  }

  /** The result of `generate_declares`: the port block, the number of ports declared, the
      wire block and the number of wires declared; a block is `None` when it is empty. */
  datatype Declarations = Declarations(portCode: Option<string>, portCount: nat,
                                       wireCode: Option<string>, wireCount: nat)

  /** A marker comment line as the generators write it. */
  function MarkerLine(ind: string, word: string): string {
    ind + "/* " + word + " */"
  }

  /** `generate_declares(instances, windent, pindent)`. The port markers are written one
      blank to the right of `pindent`, the port declarations behind `<pindent>,`. */
  function GenerateDeclares(instances: OMap<string, Instance>, windent: nat, pindent: nat): Declarations
    requires AllHavePorts(Values(instances))
  {
    var wd := WireDict(Values(instances));
    var pd := PortDict(Values(instances));
    var wind := Spaces(windent);
    var pind := Spaces(pindent);
    var lead := pind + ",";
    var wireCode :=
      if |wd| == 0 then None
      else Some(MarkerLine(wind, WireBegin) + "\n" + wind + Join(Values(wd), "\n" + wind)
                + "\n" + MarkerLine(wind, WireEnd));
    var portCode :=
      if |pd| == 0 then None
      else Some(MarkerLine(pind + " ", PortBegin) + "\n" + lead + Join(Values(pd), "\n" + lead)
                + "\n" + MarkerLine(pind + " ", PortEnd));
    Declarations(portCode, |pd|, wireCode, |wd|)
  }

  /** The wire block as a list of lines: the begin marker, one line per wire, the end marker. */
  function WireBlockLines(wires: seq<string>, ind: string): seq<string> {
    [MarkerLine(ind, WireBegin)] + Prefixed(ind, wires) + [MarkerLine(ind, WireEnd)]
  }

  /** The port block as a list of lines: the markers sit one column to the right of the
      indentation, and every declaration starts with a comma. */
  function PortBlockLines(decls: seq<string>, ind: string): seq<string> {
    [MarkerLine(ind + " ", PortBegin)] + Prefixed(ind + ",", decls) + [MarkerLine(ind + " ", PortEnd)]
  }

  // ---------------------------------------------------------------------------
  // Lemmas: layout of an instantiation

  /** A line with `name` at column 0, ` (` at column `wk`, `value` right behind it and
      `tail` at column `wk + 2 + wv`, blanks in between. */
  predicate LaidOut(c: string, name: string, value: string, wk: nat, wv: nat, tail: string) {
    && |name| <= wk && |value| <= wv
    && |c| == wk + 2 + wv + |tail|
    && c[..|name|] == name
    && (forall i :: |name| <= i < wk ==> c[i] == ' ')
    && c[wk..wk + 2] == " ("
    && c[wk + 2..wk + 2 + |value|] == value
    && (forall i :: wk + 2 + |value| <= i < wk + 2 + wv ==> c[i] == ' ')
    && c[wk + 2 + wv..] == tail
  }

  /** When the name and the value fit their columns, a connection lays them out there. */
  lemma ConnectionColumns(name: string, value: string, wk: nat, wv: nat, tail: string)
    requires |name| <= wk && |value| <= wv
    ensures LaidOut(Connection(name, value, wk, wv, tail), name, value, wk, wv, tail)
  {
    var p := PadRight(name, wk);
    var q := PadRight(value, wv);
    var c := p + " (" + q + tail;
    assert |p| == wk && |q| == wv;
    assert c == Connection(name, value, wk, wv, tail);
    assert c[..wk] == p;
    assert c[..|name|] == p[..|name|];
    assert c[wk..wk + 2] == " (" by {
      assert c[wk] == ' ' && c[wk + 1] == '(';
    }
    assert c[wk + 2..wk + 2 + wv] == q;
    assert c[wk + 2..wk + 2 + |value|] == q[..|value|];
    assert c[wk + 2 + wv..] == tail;
  }

  /** Every parameter line lays out the parameter's short name and value at the widths of
      the longest short name and the longest value; `jk` and `jv` are parameters that reach
      those widths. */
  lemma ParamEntriesAligned(params: ParamTable, i: int) returns (jk: int, jv: int)
    requires 0 <= i < |params|
    ensures LaidOut(ParamEntries(params)[i], LastPiece(params[i].0, '.'), params[i].1,
                    MaxLen(ShortNames(params)), MaxLen(Values(params)), ")")
    ensures 0 <= jk < |params| && |LastPiece(params[jk].0, '.')| == MaxLen(ShortNames(params))
    ensures 0 <= jv < |params| && |params[jv].1| == MaxLen(Values(params))
  {
    var wk := MaxLen(ShortNames(params));
    var wv := MaxLen(Values(params));
    var name := LastPiece(params[i].0, '.');
    assert ShortNames(params)[i] == name;
    assert Values(params)[i] == params[i].1;
    assert ParamEntries(params)[i] == Connection(name, params[i].1, wk, wv, ")");
    ConnectionColumns(name, params[i].1, wk, wv, ")");
    jk :| 0 <= jk < |params| && |ShortNames(params)[jk]| == wk;
    jv :| 0 <= jv < |params| && |Values(params)[jv]| == wv;
  }

  /** Every port line lays out the port name and the connected net with its slice at the
      widths of the longest port name and the longest connection, followed by the port's
      comment; `jk` and `jv` are ports that reach those widths. */
  lemma PortEntriesAligned(v: Variant, ports: PortTable, i: int) returns (jk: int, jv: int)
    requires 0 <= i < |ports|
    ensures LaidOut(PortEntries(v, ports)[i], ports[i].0, Actual(ports[i].1),
                    MaxLen(Keys(ports)), MaxLen(Actuals(ports)), ") " + PortComment(v, ports[i].1))
    ensures 0 <= jk < |ports| && |ports[jk].0| == MaxLen(Keys(ports))
    ensures 0 <= jv < |ports| && |Actual(ports[jv].1)| == MaxLen(Actuals(ports))
  {
    var wk := MaxLen(Keys(ports));
    var wv := MaxLen(Actuals(ports));
    var tail := ") " + PortComment(v, ports[i].1);
    assert Keys(ports)[i] == ports[i].0;
    assert Actuals(ports)[i] == Actual(ports[i].1);
    assert PortEntries(v, ports)[i] == Connection(ports[i].0, Actual(ports[i].1), wk, wv, tail);
    ConnectionColumns(ports[i].0, Actual(ports[i].1), wk, wv, tail);
    jk :| 0 <= jk < |ports| && |Keys(ports)[jk]| == wk;
    jv :| 0 <= jv < |ports| && |Actuals(ports)[jv]| == wv;
  }

  /** Line `j` of the middle part of a list in four parts. */
  lemma BodyLine(a: seq<string>, x: string, b: seq<string>, y: string, h: int, j: int)
    requires h == |a| && 0 <= j < |b|
    ensures |a + [x] + b + [y]| == |a| + |b| + 2
    ensures (a + [x] + b + [y])[h + 1 + j] == b[j]
  {
  }

  /** `lines` is `top`, then the line `head`, then the lines of `body`, then the line `last`. */
  predicate Framed(lines: seq<string>, top: seq<string>, head: string, body: seq<string>, last: string) {
    && |lines| == |top| + |body| + 2
    && lines[..|top|] == top
    && lines[|top|] == head
    && lines[|top| + 1..|top| + 1 + |body|] == body
    && lines[|lines| - 1] == last
  }

  lemma Parts4(a: seq<string>, x: string, b: seq<string>, y: string)
    ensures Framed(a + [x] + b + [y], a, x, b, y)
  {
    var s := a + [x] + b + [y];
    assert s[..|a|] == a;
    assert s[|a| + 1..|a| + 1 + |b|] == b;
  }

  /** A block as text: the entries joined behind `<ind>,.`, the first behind `<ind> .`. */
  lemma BlockText(ind: string, entries: seq<string>)
    requires |entries| > 0
    ensures ind + " ." + Join(entries, "\n" + ind + ",.") == Join(Block(ind, entries), "\n")
  {
    JoinPrefixed(ind + " .", ind + ",.", entries);
    assert "\n" + ind + ",." == "\n" + (ind + ",.");
  }

  /** The header of an instantiation with parameters, regrouped around its line breaks. */
  lemma HeaderRegroup(head: string, mt: string, ind0: string, inst: string, op: string)
    ensures head + ("#(" + "\n" + mt + "\n" + ind0 + ") ") + inst + op
         == (head + "#(") + "\n" + mt + "\n" + (ind0 + ") " + inst + op)
  {
  }

  /** The lines of an instantiation with a parameter block. */
  lemma InstLinesParams(v: Variant, mod: string, params: ParamTable, ports: PortTable, inst: string, indent: nat)
    requires |ports| > 0 && |params| > 0
    ensures var ind0 := Spaces(indent);
            var ind1 := ind0 + "    ";
            InstLines(v, mod, params, ports, inst, indent)
            == [ind0 + mod + " " + "#("] + Block(ind1, ParamEntries(params)) + [ind0 + ") " + inst + Opener(v)]
               + Block(ind1, PortEntries(v, ports)) + [ind0 + "); // end of " + inst]
  {
    var ind0 := Spaces(indent);
    assert TopLines(mod, params, indent) == [ind0 + mod + " " + "#("] + Block(ind0 + "    ", ParamEntries(params));
    assert HeadStem(mod, params, inst, indent) == ind0 + ") " + inst;
  }

  /** The lines of an instantiation without a parameter block. */
  lemma InstLinesPlain(v: Variant, mod: string, params: ParamTable, ports: PortTable, inst: string, indent: nat)
    requires |ports| > 0 && |params| == 0
    ensures var ind0 := Spaces(indent);
            InstLines(v, mod, params, ports, inst, indent)
            == [ind0 + mod + " " + inst + Opener(v)] + Block(ind0 + "    ", PortEntries(v, ports)) + [ind0 + "); // end of " + inst]
  {
    var ind0 := Spaces(indent);
    var line := ind0 + mod + " " + inst + Opener(v);
    assert TopLines(mod, params, indent) == [];
    assert HeadStem(mod, params, inst, indent) + Opener(v) == line;
    assert [] + [line] == [line];
  }

  /** The instantiation text is its lines joined by newlines. */
  lemma InstText(v: Variant, mod: string, params: ParamTable, ports: PortTable, inst: string, indent: nat)
    requires |ports| > 0
    ensures GenerateInst(v, mod, params, ports, inst, indent) == Join(InstLines(v, mod, params, ports, inst, indent), "\n")
  {
    var ind0 := Spaces(indent);
    var ind1 := ind0 + "    ";
    var head := ind0 + mod + " ";
    var pb := Block(ind1, PortEntries(v, ports));
    var pt := ind1 + " ." + Join(PortEntries(v, ports), "\n" + ind1 + ",.");
    var cl := ind0 + "); // end of " + inst;
    BlockText(ind1, PortEntries(v, ports));
    if |params| > 0 {
      InstLinesParams(v, mod, params, ports, inst, indent);
      var mb := Block(ind1, ParamEntries(params));
      var mt := ind1 + " ." + Join(ParamEntries(params), "\n" + ind1 + ",.");
      var header := head + ("#(" + "\n" + mt + "\n" + ind0 + ") ") + inst + Opener(v);
      BlockText(ind1, ParamEntries(params));
      assert GenerateInst(v, mod, params, ports, inst, indent) == header + "\n" + pt + "\n" + cl;
      HeaderRegroup(head, mt, ind0, inst, Opener(v));
      JoinSections(head + "#(", mb, ind0 + ") " + inst + Opener(v), pb, cl);
    } else {
      var header := head + "" + inst + Opener(v);
      assert GenerateInst(v, mod, params, ports, inst, indent) == header + "\n" + pt + "\n" + cl;
      assert head + "" == head;
      InstLinesPlain(v, mod, params, ports, inst, indent);
      JoinSections3(head + inst + Opener(v), pb, cl);
    }
  }

  /** The vlogai instantiation has one line per parameter and per port plus the header,
      parameter-block and closing lines, and its header line carries the `vai-auto-inst`
      directive for the instance name. When the header line begins with `)` or with a
      module name that starts with neither a blank nor `/` (every Verilog identifier), it is
      moreover not a comment line, so it passes the directive test of `get_instances` as
      soon as it lies in the instance's window; where that window falls depends on the
      line numbers the parser reports. */
  lemma HeaderDirective(mod: string, params: ParamTable, ports: PortTable, inst: string, indent: nat)
    requires |ports| > 0
    ensures var lines := InstLines(Vlogai, mod, params, ports, inst, indent);
            && |lines| == HeaderIndex(params) + |ports| + 2
            && HasDirective(lines[HeaderIndex(params)], inst)
            && (|params| > 0 || (|mod| > 0 && !IsSpace(mod[0]) && mod[0] != '/') ==>
                  DirectiveLine(lines[HeaderIndex(params)], inst))
  {
    var ind0 := Spaces(indent);
    InstLinesShape(Vlogai, mod, params, ports, inst, indent);
    if |params| > 0 {
      DirectiveSpaced(ind0 + ") ", inst);
    } else {
      DirectiveSpaced(ind0 + mod + " ", inst);
    }
    if |params| > 0 || (|mod| > 0 && !IsSpace(mod[0]) && mod[0] != '/') {
      HeadLineNotComment(Vlogai, mod, params, inst, indent);
    }
  }

  /** A header line that begins, behind its indentation, with `)` or with a non-blank
      character other than `/` is not a comment line. */
  lemma HeadLineNotComment(v: Variant, mod: string, params: ParamTable, inst: string, indent: nat)
    requires |params| > 0 || (|mod| > 0 && !IsSpace(mod[0]) && mod[0] != '/')
    ensures !IsCommentLine(HeadLine(v, mod, params, inst, indent))
  {
    var ind := Spaces(indent);
    var t := if |params| > 0 then ") " + inst + Opener(v) else mod + " " + inst + Opener(v);
    var line := HeadLine(v, mod, params, inst, indent);
    if |params| > 0 {
      assert line == ind + ") " + inst + Opener(v);
      Reassociate(ind, ") ", inst, Opener(v));
    } else {
      assert line == ind + (mod + " ") + inst + Opener(v);
      Reassociate(ind, mod + " ", inst, Opener(v));
      assert (mod + " ")[0] == mod[0];
    }
    assert line == ind + t;
    NotCommentAfterIndent(indent, t);
  }

  lemma Reassociate(a: string, b: string, c: string, d: string)
    ensures a + b + c + d == a + (b + c + d)
    ensures (b + c + d)[..|b|] == b
  {
  }

  /** A text starting with a non-blank character other than `/`, indented by blanks, is not a
      comment line. */
  lemma NotCommentAfterIndent(n: nat, t: string)
    requires |t| > 0 && !IsSpace(t[0]) && t[0] != '/'
    ensures !IsCommentLine(Spaces(n) + t)
  {
    LeadingSpacesIndent(n, t);
    assert (Spaces(n) + t)[n] == t[0];
  }

  /** A port line up to the tags of its comment: the lead, the aligned connection and `) //`. */
  function PortStem(ind: string, ports: PortTable, j: int): string
    requires 0 <= j < |ports|
  {
    (if j == 0 then ind + " ." else ind + ",.")
      + Connection(ports[j].0, Actual(ports[j].1), MaxLen(Keys(ports)), MaxLen(Actuals(ports)), ") //")
  }

  /** Entry `j` of a block sits behind ` .` (the first) or `,.` (the others). */
  lemma BlockAt(ind: string, entries: seq<string>, j: int)
    requires 0 <= j < |entries|
    ensures Block(ind, entries)[j] == (if j == 0 then ind + " ." else ind + ",.") + entries[j]
  {
    if j > 0 {
      assert Block(ind, entries)[j] == Prefixed(ind + ",.", entries[1..])[j - 1];
    }
  }

  /** A port line regrouped around the end of its comment marker. */
  lemma CommentRegroup(lead: string, cell: string, tags: string)
    ensures lead + (cell + (") " + ("//" + tags))) == lead + (cell + ") //") + tags
  {
  }

  /** Port line `j` of an instantiation: the stem, then the kind and direction tags (vlogai)
      or the direction tag alone (pyvai). */
  lemma PortLineText(v: Variant, ind: string, ports: PortTable, j: int)
    requires 0 <= j < |ports|
    ensures Block(ind, PortEntries(v, ports))[j] == PortStem(ind, ports, j) + PortTags(v, ports[j].1)
  {
    var wk, wv := MaxLen(Keys(ports)), MaxLen(Actuals(ports));
    var b := ports[j].1;
    var lead := if j == 0 then ind + " ." else ind + ",.";
    var cell := PadRight(ports[j].0, wk) + " (" + PadRight(Actual(b), wv);
    BlockAt(ind, PortEntries(v, ports), j);
    assert PortEntries(v, ports)[j] == cell + (") " + PortComment(v, b));
    assert PortStem(ind, ports, j) == lead + (cell + ") //");
    CommentRegroup(lead, cell, PortTags(v, b));
  }

  /** The instance-name line comes right after the lines in front of it. */
  lemma TopLinesLength(mod: string, params: ParamTable, indent: nat)
    ensures |TopLines(mod, params, indent)| == HeaderIndex(params)
  {
  }

  /** Where each part of an instantiation sits in its list of lines. */
  lemma InstLinesShape(v: Variant, mod: string, params: ParamTable, ports: PortTable, inst: string, indent: nat)
    requires |ports| > 0
    ensures |TopLines(mod, params, indent)| == HeaderIndex(params)
    ensures Framed(InstLines(v, mod, params, ports, inst, indent), TopLines(mod, params, indent),
                   HeadLine(v, mod, params, inst, indent), PortBlock(v, ports, indent), CloseLine(inst, indent))
  {
    TopLinesLength(mod, params, indent);
    Parts4(TopLines(mod, params, indent), HeadLine(v, mod, params, inst, indent), PortBlock(v, ports, indent),
           CloseLine(inst, indent));
  }

  /** Line `j` of the body of a framed list. */
  lemma FramedBody(lines: seq<string>, top: seq<string>, head: string, body: seq<string>, last: string, j: int)
    requires Framed(lines, top, head, body, last)
    requires 0 <= j < |body|
    ensures lines[|top| + 1 + j] == body[j]
  {
    assert lines[|top| + 1 + j] == lines[|top| + 1..|top| + 1 + |body|][j];
  }

  /** Port line `j` of an instantiation sits right below the instance-name line's index
      plus `j`. */
  lemma PortLineAt(v: Variant, mod: string, params: ParamTable, ports: PortTable, inst: string, indent: nat, j: int)
    requires 0 <= j < |ports|
    ensures InstLines(v, mod, params, ports, inst, indent)[HeaderIndex(params) + 1 + j]
            == PortStem(Spaces(indent) + "    ", ports, j) + PortTags(v, ports[j].1)
  {
    BlockLineAt(v, mod, params, ports, inst, indent, j);
    PortLineText(v, Spaces(indent) + "    ", ports, j);
  }

  /** Line `j` of the port block is the line below the instance-name line's index plus `j`. */
  lemma BlockLineAt(v: Variant, mod: string, params: ParamTable, ports: PortTable, inst: string, indent: nat, j: int)
    requires 0 <= j < |ports|
    ensures InstLines(v, mod, params, ports, inst, indent)[HeaderIndex(params) + 1 + j]
            == PortBlock(v, ports, indent)[j]
  {
    InstLinesParts(v, mod, params, ports, inst, indent);
    TopLinesLength(mod, params, indent);
    BodyLine(TopLines(mod, params, indent), HeadLine(v, mod, params, inst, indent), PortBlock(v, ports, indent),
             CloseLine(inst, indent), HeaderIndex(params), j);
  }

  /** An instantiation's lines are the parameter header, the instance-name line, the port
      block and the closing line. */
  lemma InstLinesParts(v: Variant, mod: string, params: ParamTable, ports: PortTable, inst: string, indent: nat)
    requires |ports| > 0
    ensures InstLines(v, mod, params, ports, inst, indent)
            == TopLines(mod, params, indent) + [HeadLine(v, mod, params, inst, indent)]
               + PortBlock(v, ports, indent) + [CloseLine(inst, indent)]
  {
  }

  /** The vlogai opener is the pyvai one followed by the directive comment. */
  lemma OpenerDirective(stem: string)
    ensures stem + Opener(Vlogai) == stem + Opener(Pyvai) + " /* vai-auto-inst */"
  {
    assert " ( /* vai-auto-inst */" == " (" + " /* vai-auto-inst */";
  }

  /** Two framed lists with the same top, bodies of the same length and the same last line
      differ at most in their head and body lines. */
  lemma FramedPair(v: seq<string>, p: seq<string>, top: seq<string>, hv: string, hp: string,
                   bv: seq<string>, bp: seq<string>, last: string)
    requires Framed(v, top, hv, bv, last) && Framed(p, top, hp, bp, last) && |bv| == |bp|
    ensures |v| == |p| && v[..|top|] == p[..|top|] && v[|top|] == hv && p[|top|] == hp
    ensures v[|v| - 1] == p[|p| - 1]
  {
  }

  /** The lines around the port lines: the same in both variants but for the directive
      behind the instance name. */
  lemma VariantFrame(mod: string, params: ParamTable, ports: PortTable, inst: string, indent: nat)
    requires |ports| > 0
    ensures var v, p := InstLines(Vlogai, mod, params, ports, inst, indent), InstLines(Pyvai, mod, params, ports, inst, indent);
            var h := HeaderIndex(params);
            && |v| == |p| == h + |ports| + 2
            && v[h] == p[h] + " /* vai-auto-inst */"
            && v[..h] == p[..h]
            && v[|v| - 1] == p[|p| - 1]
  {
    InstLinesShape(Vlogai, mod, params, ports, inst, indent);
    InstLinesShape(Pyvai, mod, params, ports, inst, indent);
    FramedPair(InstLines(Vlogai, mod, params, ports, inst, indent), InstLines(Pyvai, mod, params, ports, inst, indent),
               TopLines(mod, params, indent), HeadLine(Vlogai, mod, params, inst, indent), HeadLine(Pyvai, mod, params, inst, indent),
               PortBlock(Vlogai, ports, indent), PortBlock(Pyvai, ports, indent), CloseLine(inst, indent));
    OpenerDirective(HeadStem(mod, params, inst, indent));
  }

  /** The two variants write the same lines, except that vlogai puts the directive behind
      the instance name and the kind tag in front of every port's direction tag. */
  lemma VariantLines(mod: string, params: ParamTable, ports: PortTable, inst: string, indent: nat)
    requires |ports| > 0
    ensures var v, p := InstLines(Vlogai, mod, params, ports, inst, indent), InstLines(Pyvai, mod, params, ports, inst, indent);
            var h := HeaderIndex(params);
            && |v| == |p| == h + |ports| + 2
            && v[h] == p[h] + " /* vai-auto-inst */"
            && v[..h] == p[..h]
            && v[|v| - 1] == p[|p| - 1]
            && forall j :: 0 <= j < |ports| ==>
                 && v[h + 1 + j] == PortStem(Spaces(indent) + "    ", ports, j) + (ports[j].1.kind + ports[j].1.dir)
                 && p[h + 1 + j] == PortStem(Spaces(indent) + "    ", ports, j) + ports[j].1.dir
  {
    VariantFrame(mod, params, ports, inst, indent);
    forall j | 0 <= j < |ports|
      ensures InstLines(Vlogai, mod, params, ports, inst, indent)[HeaderIndex(params) + 1 + j]
              == PortStem(Spaces(indent) + "    ", ports, j) + (ports[j].1.kind + ports[j].1.dir)
      ensures InstLines(Pyvai, mod, params, ports, inst, indent)[HeaderIndex(params) + 1 + j]
              == PortStem(Spaces(indent) + "    ", ports, j) + ports[j].1.dir
    {
      PortLineAt(Vlogai, mod, params, ports, inst, indent, j);
      PortLineAt(Pyvai, mod, params, ports, inst, indent, j);
    }
  }

  // ---------------------------------------------------------------------------
  // Lemmas: declarations

  /** The names of the ports of the given kind over all instances: what the declaration
      dictionaries are keyed by. */
  function KindNames(insts: seq<Instance>, kind: string): set<string> {
    set i, j | 0 <= i < |insts| && 0 <= j < |insts[i].ports| && insts[i].ports[j].1.kind == kind
             :: insts[i].ports[j].1.instp
  }

  /** A declaration list of one kind is keyed exactly by the names of that kind's ports. */
  lemma KindKeys(ports: PortTable, kind: string, item: PortBinding -> (string, string), k: string)
    returns (j: int)
    requires forall b :: item(b).0 == b.instp
    ensures k in Keys(Collect(Values(ports), OfKind(kind), item)) ==>
              0 <= j < |ports| && ports[j].1.kind == kind && ports[j].1.instp == k
    ensures k !in Keys(Collect(Values(ports), OfKind(kind), item)) ==>
              forall i :: 0 <= i < |ports| && ports[i].1.kind == kind ==> ports[i].1.instp != k
  {
    var c := Collect(Values(ports), OfKind(kind), item);
    j := CollectLast(Values(ports), OfKind(kind), item, k);
    LastGetIsGet(c, k);
    if k !in Keys(c) {
      forall i | 0 <= i < |ports| && ports[i].1.kind == kind
        ensures ports[i].1.instp != k
      {
        assert Values(ports)[i] == ports[i].1;
      }
    } else {
      assert Values(ports)[j] == ports[j].1;
    }
  }

  /** The entry at position `n` of a declaration list declares a port `j` of that kind. */
  lemma KindEntryFrom(ports: PortTable, kind: string, item: PortBinding -> (string, string), n: int)
    returns (j: int)
    requires 0 <= n < |Collect(Values(ports), OfKind(kind), item)|
    ensures 0 <= j < |ports| && ports[j].1.kind == kind
    ensures Collect(Values(ports), OfKind(kind), item)[n] == item(ports[j].1)
  {
    var c := Collect(Values(ports), OfKind(kind), item);
    CollectMembers(Values(ports), OfKind(kind), item);
    assert c[n] in c;
    var x :| x in Values(ports) && OfKind(kind)(x) && c[n] == item(x);
    j :| 0 <= j < |ports| && Values(ports)[j] == x;
  }

  /** Every port of the kind has its entry in the declaration list. */
  lemma KindEntryOf(ports: PortTable, kind: string, item: PortBinding -> (string, string), j: int)
    requires 0 <= j < |ports| && ports[j].1.kind == kind
    ensures item(ports[j].1) in Collect(Values(ports), OfKind(kind), item)
  {
    CollectMembers(Values(ports), OfKind(kind), item);
    assert Values(ports)[j] == ports[j].1;
  }

  lemma WireItemKey(ws: nat, wi: nat)
    ensures forall b :: WireItem(ws, wi)(b).0 == b.instp
  {
  }

  lemma PortItemKey(ws: nat)
    ensures forall b :: PortItem(ws)(b).0 == b.instp
  {
  }

  /** The wire dictionary is keyed by the names of the `W` ports of all instances. */
  lemma WireDictKeys(insts: seq<Instance>, k: string)
    requires AllHavePorts(insts)
    ensures k in Keys(WireDict(insts)) <==> k in KindNames(insts, "W")
  {
    var ns := WireLists(insts);
    if k in Keys(WireDict(insts)) {
      var i := UpdateAllKeys(ns, k);
      var ports := insts[i].ports;
      WireItemKey(MaxLen(Slices(ports)), MaxLen(Instps(ports)));
      var j := KindKeys(ports, "W", WireItem(MaxLen(Slices(ports)), MaxLen(Instps(ports))), k);
      assert insts[i].ports[j].1.instp in KindNames(insts, "W");
    }
    if k in KindNames(insts, "W") {
      var i, j :| 0 <= i < |insts| && 0 <= j < |insts[i].ports| && insts[i].ports[j].1.kind == "W"
                  && insts[i].ports[j].1.instp == k;
      var ports := insts[i].ports;
      WireItemKey(MaxLen(Slices(ports)), MaxLen(Instps(ports)));
      var _ := KindKeys(ports, "W", WireItem(MaxLen(Slices(ports)), MaxLen(Instps(ports))), k);
      assert k in Keys(ns[i]);
      var _ := UpdateAllKeys(ns, k);
    }
  }

  /** The port dictionary is keyed by the names of the `P` ports of all instances. */
  lemma PortDictKeys(insts: seq<Instance>, k: string)
    requires AllHavePorts(insts)
    ensures k in Keys(PortDict(insts)) <==> k in KindNames(insts, "P")
  {
    var ns := PortLists(insts);
    if k in Keys(PortDict(insts)) {
      var i := UpdateAllKeys(ns, k);
      var ports := insts[i].ports;
      PortItemKey(MaxLen(Slices(ports)));
      var j := KindKeys(ports, "P", PortItem(MaxLen(Slices(ports))), k);
      assert insts[i].ports[j].1.instp in KindNames(insts, "P");
    }
    if k in KindNames(insts, "P") {
      var i, j :| 0 <= i < |insts| && 0 <= j < |insts[i].ports| && insts[i].ports[j].1.kind == "P"
                  && insts[i].ports[j].1.instp == k;
      var ports := insts[i].ports;
      PortItemKey(MaxLen(Slices(ports)));
      var _ := KindKeys(ports, "P", PortItem(MaxLen(Slices(ports))), k);
      assert k in Keys(ns[i]);
      var _ := UpdateAllKeys(ns, k);
    }
  }

  /** `generate_declares` declares every wire name and every external port name once: the
      counts it returns are the numbers of distinct names, and a block is left out exactly
      when no port of its kind exists. */
  lemma DeclaresCounts(instances: OMap<string, Instance>, windent: nat, pindent: nat)
    requires AllHavePorts(Values(instances))
    ensures var r := GenerateDeclares(instances, windent, pindent);
            && r.wireCount == |KindNames(Values(instances), "W")|
            && r.portCount == |KindNames(Values(instances), "P")|
            && (r.wireCode.None? <==> KindNames(Values(instances), "W") == {})
            && (r.portCode.None? <==> KindNames(Values(instances), "P") == {})
  {
    WireCount(Values(instances));
    PortCount(Values(instances));
  }

  lemma WireCount(insts: seq<Instance>)
    requires AllHavePorts(insts)
    ensures |WireDict(insts)| == |KindNames(insts, "W")|
  {
    var wd := WireDict(insts);
    UpdateAllUnique(WireLists(insts));
    UniqueCard(wd);
    forall k ensures k in Keys(wd) <==> k in KindNames(insts, "W") {
      WireDictKeys(insts, k);
    }
    assert (set k | k in Keys(wd)) == KindNames(insts, "W");
  }

  lemma PortCount(insts: seq<Instance>)
    requires AllHavePorts(insts)
    ensures |PortDict(insts)| == |KindNames(insts, "P")|
  {
    var pd := PortDict(insts);
    UpdateAllUnique(PortLists(insts));
    UniqueCard(pd);
    forall k ensures k in Keys(pd) <==> k in KindNames(insts, "P") {
      PortDictKeys(insts, k);
    }
    assert (set k | k in Keys(pd)) == KindNames(insts, "P");
  }

  /** When several instances declare the same name, the declaration written is the one of
      the last such instance (its last entry for that name). */
  lemma DeclaresLast(insts: seq<Instance>, k: string)
    requires AllHavePorts(insts)
    ensures Get(WireDict(insts), k) == LastGet(Concat(WireLists(insts)), k)
    ensures Get(PortDict(insts), k) == LastGet(Concat(PortLists(insts)), k)
  {
    UpdateAllGet(WireLists(insts), k);
    UpdateAllGet(PortLists(insts), k);
  }

  /** The names of the ports of `kind` among `bs`, in order. */
  function KindInstps(bs: seq<PortBinding>, kind: string): seq<string> {
    if |bs| == 0 then []
    else KindInstps(bs[..|bs| - 1], kind) + (if bs[|bs| - 1].kind == kind then [bs[|bs| - 1].instp] else [])
  }

  /** The names of the ports of `kind` in the order the declaration loops visit them: the
      instances in order, and each instance's ports in table order. */
  function KindSequence(insts: seq<Instance>, kind: string): seq<string> {
    if |insts| == 0 then []
    else KindSequence(insts[..|insts| - 1], kind) + KindInstps(Values(insts[|insts| - 1].ports), kind)
  }

  /** `generate_declares` writes each wire once, at the place of its first occurrence in
      the order the loops visit the ports, with the text of its last occurrence: the wire
      dictionary's keys are the first occurrences of the visited `W` names, and each entry
      holds the last declaration written for its name. */
  lemma WireOrder(insts: seq<Instance>)
    requires AllHavePorts(insts)
    ensures Keys(WireDict(insts)) == AddNew([], KindSequence(insts, "W"))
    ensures FirstOrdered(Keys(WireDict(insts)), KindSequence(insts, "W"))
    ensures forall i :: 0 <= i < |WireDict(insts)| ==>
              LastGet(Concat(WireLists(insts)), WireDict(insts)[i].0) == Some(WireDict(insts)[i].1)
  {
    UpdateAllOrder(WireLists(insts));
    WireSequence(insts);
    AddNewFirst(KindSequence(insts, "W"));
    DictEntriesLast(WireLists(insts));
  }

  /** The same for the external ports and their `P` names. */
  lemma PortOrder(insts: seq<Instance>)
    requires AllHavePorts(insts)
    ensures Keys(PortDict(insts)) == AddNew([], KindSequence(insts, "P"))
    ensures FirstOrdered(Keys(PortDict(insts)), KindSequence(insts, "P"))
    ensures forall i :: 0 <= i < |PortDict(insts)| ==>
              LastGet(Concat(PortLists(insts)), PortDict(insts)[i].0) == Some(PortDict(insts)[i].1)
  {
    UpdateAllOrder(PortLists(insts));
    PortSequence(insts);
    AddNewFirst(KindSequence(insts, "P"));
    DictEntriesLast(PortLists(insts));
  }

  /** Every entry of a fold of updates holds the last value written for its key. */
  lemma DictEntriesLast(ns: seq<seq<(string, string)>>)
    ensures forall i :: 0 <= i < |UpdateAll(ns)| ==> LastGet(Concat(ns), UpdateAll(ns)[i].0) == Some(UpdateAll(ns)[i].1)
  {
    UpdateAllUnique(ns);
    forall i | 0 <= i < |UpdateAll(ns)|
      ensures LastGet(Concat(ns), UpdateAll(ns)[i].0) == Some(UpdateAll(ns)[i].1)
    {
      GetEntry(UpdateAll(ns), i);
      UpdateAllGet(ns, UpdateAll(ns)[i].0);
    }
  }

  /** The keys of a declaration list are the names of that kind's ports, in order. */
  lemma {:induction false} CollectKeys(bs: seq<PortBinding>, kind: string, item: PortBinding -> (string, string))
    requires forall b :: item(b).0 == b.instp
    ensures Keys(Collect(bs, OfKind(kind), item)) == KindInstps(bs, kind)
  {
    if |bs| > 0 {
      var front := bs[..|bs| - 1];
      CollectKeys(front, kind, item);
      var tail := if OfKind(kind)(bs[|bs| - 1]) then [item(bs[|bs| - 1])] else [];
      KeysAppend(Collect(front, OfKind(kind), item), tail);
    }
  }

  lemma {:induction false} WireSequence(insts: seq<Instance>)
    requires AllHavePorts(insts)
    ensures Keys(Concat(WireLists(insts))) == KindSequence(insts, "W")
  {
    if |insts| > 0 {
      var front := insts[..|insts| - 1];
      var ports := insts[|insts| - 1].ports;
      WireSequence(front);
      assert WireLists(insts)[..|insts| - 1] == WireLists(front);
      WireItemKey(MaxLen(Slices(ports)), MaxLen(Instps(ports)));
      CollectKeys(Values(ports), "W", WireItem(MaxLen(Slices(ports)), MaxLen(Instps(ports))));
      KeysAppend(Concat(WireLists(front)), WirePairs(ports));
    }
  }

  lemma {:induction false} PortSequence(insts: seq<Instance>)
    requires AllHavePorts(insts)
    ensures Keys(Concat(PortLists(insts))) == KindSequence(insts, "P")
  {
    if |insts| > 0 {
      var front := insts[..|insts| - 1];
      var ports := insts[|insts| - 1].ports;
      PortSequence(front);
      assert PortLists(insts)[..|insts| - 1] == PortLists(front);
      PortItemKey(MaxLen(Slices(ports)));
      CollectKeys(Values(ports), "P", PortItem(MaxLen(Slices(ports))));
      KeysAppend(Concat(PortLists(front)), PortDeclPairs(ports));
    }
  }

  /** The blocks `generate_declares` returns are their lines joined by newlines: a begin
      marker, one line per declaration, an end marker. */
  lemma DeclaresText(instances: OMap<string, Instance>, windent: nat, pindent: nat)
    requires AllHavePorts(Values(instances))
    ensures var r := GenerateDeclares(instances, windent, pindent);
            && (r.wireCode.Some? ==>
                  r.wireCode.value == Join(WireBlockLines(Values(WireDict(Values(instances))), Spaces(windent)), "\n"))
            && (r.portCode.Some? ==>
                  r.portCode.value == Join(PortBlockLines(Values(PortDict(Values(instances))), Spaces(pindent)), "\n"))
  {
    var wd := WireDict(Values(instances));
    var pd := PortDict(Values(instances));
    var wind := Spaces(windent);
    var pind := Spaces(pindent);
    if |wd| > 0 {
      JoinFramed(MarkerLine(wind, WireBegin), wind, Values(wd), MarkerLine(wind, WireEnd));
    }
    if |pd| > 0 {
      JoinFramed(MarkerLine(pind + " ", PortBegin), pind + ",", Values(pd), MarkerLine(pind + " ", PortEnd));
    }
  }

  /** Scanning a generated wire block finds its markers on its first and last lines, with
      the indentation it was written with; the port block's markers are found one column
      further right than the indentation it was written with. */
  lemma DeclareMarkers(wires: seq<string>, windent: nat, decls: seq<string>, pindent: nat)
    ensures var w := WireBlockLines(wires, Spaces(windent));
            && IsMarker(w[0], WireBegin) && LeadingSpaces(w[0]) == windent
            && IsMarker(w[|w| - 1], WireEnd)
    ensures var p := PortBlockLines(decls, Spaces(pindent));
            && IsMarker(p[0], PortBegin) && LeadingSpaces(p[0]) == pindent + 1
            && IsMarker(p[|p| - 1], PortEnd)
  {
    WireMarkers(wires, windent);
    PortMarkers(decls, pindent);
  }

  /** A marker line written behind `n` blanks is recognised as that marker, `n` deep. */
  lemma MarkerLineFound(ind: string, n: nat, word: string)
    requires ind == Spaces(n) && |word| > 0 && !IsSpace(word[0])
    ensures IsMarker(MarkerLine(ind, word), word) && LeadingSpaces(MarkerLine(ind, word)) == n
  {
    MarkerWritten(n, word);
    assert MarkerLine(ind, word) == Spaces(n) + ("/* " + word + " */");
  }

  /** The wire half of `DeclareMarkers`. */
  lemma WireMarkers(wires: seq<string>, windent: nat)
    ensures var w := WireBlockLines(wires, Spaces(windent));
            && IsMarker(w[0], WireBegin) && LeadingSpaces(w[0]) == windent
            && IsMarker(w[|w| - 1], WireEnd)
  {
    var w := WireBlockLines(wires, Spaces(windent));
    assert w[0] == MarkerLine(Spaces(windent), WireBegin);
    assert w[|w| - 1] == MarkerLine(Spaces(windent), WireEnd);
    MarkerLineFound(Spaces(windent), windent, WireBegin);
    MarkerLineFound(Spaces(windent), windent, WireEnd);
  }

  /** The port half of `DeclareMarkers`: the markers sit one blank behind the indentation. */
  lemma PortMarkers(decls: seq<string>, pindent: nat)
    ensures var p := PortBlockLines(decls, Spaces(pindent));
            && IsMarker(p[0], PortBegin) && LeadingSpaces(p[0]) == pindent + 1
            && IsMarker(p[|p| - 1], PortEnd)
  {
    var p := PortBlockLines(decls, Spaces(pindent));
    var ind := Spaces(pindent) + " ";
    assert ind == Spaces(pindent + 1);
    assert p[0] == MarkerLine(ind, PortBegin);
    assert p[|p| - 1] == MarkerLine(ind, PortEnd);
    MarkerLineFound(ind, pindent + 1, PortBegin);
    MarkerLineFound(ind, pindent + 1, PortEnd);
  }

  /** A wire declaration whose slice and name fit their columns: `wire `, the slice padded
      to `ws`, a blank, the name padded to `wi`, and `;`. */
  lemma WireEntryColumns(b: PortBinding, ws: nat, wi: nat)
    requires |b.slice| <= ws && |b.instp| <= wi
    ensures var e := WireEntry(b, ws, wi);
            && |e| == ws + wi + 7
            && e[..5] == "wire "
            && e[5..5 + |b.slice|] == b.slice
            && (forall i :: 5 + |b.slice| <= i < 5 + ws ==> e[i] == ' ')
            && e[5 + ws] == ' '
            && e[6 + ws..6 + ws + |b.instp|] == b.instp
            && (forall i :: 6 + ws + |b.instp| <= i < 6 + ws + wi ==> e[i] == ' ')
            && e[6 + ws + wi] == ';'
  {
    var p, q := PadRight(b.slice, ws), PadRight(b.instp, wi);
    var e := WireEntry(b, ws, wi);
    assert e == "wire " + p + (" " + q + ";");
    PaddedField("wire ", b.slice, ws, " " + q + ";");
    PaddedField("wire " + p + " ", b.instp, wi, ";");
  }

  /** An external-port declaration whose slice fits its column: the direction word, a
      blank, the slice padded to `ws`, a blank, and the name. */
  lemma PortDeclColumns(b: PortBinding, ws: nat)
    requires |b.slice| <= ws
    ensures var e := PortDeclEntry(b, ws);
            var d := DirWord(b.dir);
            && d in {"input", "output", "inout"}
            && (d == "input" <==> b.dir == "I") && (d == "output" <==> b.dir == "O")
            && |e| == |d| + ws + 2 + |b.instp|
            && e[..|d|] == d
            && e[|d|] == ' '
            && e[|d| + 1..|d| + 1 + |b.slice|] == b.slice
            && (forall i :: |d| + 1 + |b.slice| <= i < |d| + 1 + ws ==> e[i] == ' ')
            && e[|d| + 1 + ws] == ' '
            && e[|d| + 2 + ws..] == b.instp
  {
    var d := DirWord(b.dir);
    var p := PadRight(b.slice, ws);
    var e := PortDeclEntry(b, ws);
    assert e == (d + " ") + p + (" " + b.instp);
    PaddedField(d + " ", b.slice, ws, " " + b.instp);
    assert e[..|d|] == (d + " ")[..|d|];
  }

  /** Every line `generate_wire_declare` writes declares a `W` port of the table, with the
      slice and name columns as wide as the widest slice and name over the whole table, so
      all its lines have one length and their names start in one column. */
  lemma WireLinesAligned(ports: PortTable, n: int) returns (j: int)
    requires |ports| > 0 && 0 <= n < |WirePairs(ports)|
    ensures 0 <= j < |ports| && ports[j].1.kind == "W"
    ensures Values(WirePairs(ports))[n] == WireEntry(ports[j].1, MaxLen(Slices(ports)), MaxLen(Instps(ports)))
    ensures |Values(WirePairs(ports))[n]| == MaxLen(Slices(ports)) + MaxLen(Instps(ports)) + 7
  {
    var ws, wi := MaxLen(Slices(ports)), MaxLen(Instps(ports));
    j := KindEntryFrom(ports, "W", WireItem(ws, wi), n);
    assert Slices(ports)[j] == ports[j].1.slice && Instps(ports)[j] == ports[j].1.instp;
    WireEntryColumns(ports[j].1, ws, wi);
  }

  /** Every line `generate_port_declare` writes declares a `P` port of the table, with the
      slice column as wide as the widest slice over the whole table. */
  lemma PortLinesAligned(ports: PortTable, n: int) returns (j: int)
    requires |ports| > 0 && 0 <= n < |PortDeclPairs(ports)|
    ensures 0 <= j < |ports| && ports[j].1.kind == "P"
    ensures Values(PortDeclPairs(ports))[n] == PortDeclEntry(ports[j].1, MaxLen(Slices(ports)))
    ensures |Values(PortDeclPairs(ports))[n]| == |DirWord(ports[j].1.dir)| + MaxLen(Slices(ports)) + 2 + |ports[j].1.instp|
  {
    var ws := MaxLen(Slices(ports));
    j := KindEntryFrom(ports, "P", PortItem(ws), n);
    assert Slices(ports)[j] == ports[j].1.slice;
    PortDeclColumns(ports[j].1, ws);
  }

  /** `generate_wire_declare` writes one line per wire, each behind the indentation; with no
      wire it writes the indentation alone. */
  lemma WireDeclareLines(ports: PortTable, indent: nat)
    requires |ports| > 0
    ensures var ws := Values(WirePairs(ports));
            GenerateWireDeclare(ports, indent)
              == if |ws| == 0 then Spaces(indent) else Join(Prefixed(Spaces(indent), ws), "\n")
  {
    var ind := Spaces(indent);
    var ws := Values(WirePairs(ports));
    if |ws| > 0 {
      JoinPrefixed(ind, ind, ws);
      assert [ind + ws[0]] + Prefixed(ind, ws[1..]) == Prefixed(ind, ws);
    } else {
      assert ind + Join(ws, "\n" + ind) == ind + "";
    }
  }

  /** `generate_port_declare` writes one line per external port, each after the first
      behind the indentation and a comma; with no such port it writes the indentation alone. */
  lemma PortDeclareLines(ports: PortTable, indent: nat)
    requires |ports| > 0
    ensures var ds := Values(PortDeclPairs(ports));
            var ind := Spaces(indent);
            GeneratePortDeclare(ports, indent)
              == if |ds| == 0 then ind else Join([ind + ds[0]] + Prefixed(ind + ",", ds[1..]), "\n")
  {
    var ind := Spaces(indent);
    var ds := Values(PortDeclPairs(ports));
    if |ds| > 0 {
      JoinPrefixed(ind, ind + ",", ds);
    } else {
      assert ind + Join(ds, "\n" + (ind + ",")) == ind + "";
    }
  }
}
