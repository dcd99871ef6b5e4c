/**
  The `VlogAutoInst` class (vlogai/vai.py and, identically, pyvai/vai.py): the parameter
  and port tables of the module to instantiate, and the two operations that change them,
  `update_inst` and `reinst`. The dataflow analyser is not modelled: its term table and
  bind table are an input, and so are the two evaluators the class calls on width
  expressions (the value of an integer constant, and Python's `eval` of an arithmetic text).
 */
module AutoInst {
  import opened Wrappers
  import opened Strings
  import opened OrderedMaps
  import opened Records

  /** An msb or lsb expression of a term: an integer constant (by its text), an operator
      expression (by the code it prints as), or anything else. */
  datatype WidthNode = IntConst(text: string) | Operator(code: string) | OtherNode

  /** A term of the analysed design: its type tags (`Input`, `Parameter`, ...) and width. */
  datatype Term = Term(termtype: set<string>, msb: WidthNode, lsb: WidthNode)

  /** The tree of a signal's first bind: an integer constant (by its value text), or other. */
  datatype Tree = ConstTree(value: string) | OtherTree

  /** The analyser's term table and bind table, both keyed by dotted names (`top.WIDTH`). */
  datatype Analysis = Analysis(terms: OMap<string, Term>, binds: OMap<string, Tree>)

  /** `DFIntConst(text).eval()` and `int(eval(code))`, both taken as given. */
  datatype Evaluator = Evaluator(constVal: string -> int, arith: string -> int)

  /** The state of a `VlogAutoInst` object. */
  datatype Session = Session(mod: string, flist: seq<string>, analysis: Analysis,
                             params: ParamTable, ports: PortTable)

  /** What a caller may override for one port: its instance-side name and its kind. */
  datatype PortOverride = PortOverride(instp: string, kind: string)

  // ---------------------------------------------------------------------------
  // Parameters (`_get_params`, `_get_param_value`)

  /** The names of the terms tagged `Parameter`, in term-table order. */
  function ParamNames(terms: OMap<string, Term>): seq<string> {
    if |terms| == 0 then []
    else
      var last := terms[|terms| - 1];
      ParamNames(terms[..|terms| - 1]) + (if "Parameter" in last.1.termtype then [last.0] else [])
  }

  /** The binds of the named parameters whose tree is a constant, with its value text;
      any other bind is skipped (the source prints an error for a parameter's). */
  function ParamPairs(names: seq<string>, binds: OMap<string, Tree>): seq<(string, string)> {
    if |binds| == 0 then []
    else
      var last := binds[|binds| - 1];
      ParamPairs(names, binds[..|binds| - 1])
        + (if last.0 in names && last.1.ConstTree? then [(last.0, last.1.value)] else [])
  }

  function GetParams(a: Analysis): ParamTable {
    FromPairs(ParamPairs(ParamNames(a.terms), a.binds))
  }

  // ---------------------------------------------------------------------------
  // Width expressions (`_expr_map`, `_get_xsb_value`)

  /** How a parameter's dotted name appears in printed expression code. */
  function CodeName(k: string): string {
    ReplaceAll(k, ".", "_")
  }

  /** Every parameter's code name replaced by its value, one parameter after another in
      table order, each replacement applied to the result of the previous ones. */
  function ExprMap(ev: Evaluator, params: ParamTable, expr: string): string
    decreases |params|
  {
    if |params| == 0 then expr
    else ExprMap(ev, params[1..], ReplaceAll(expr, CodeName(params[0].0), IntToString(ev.constVal(params[0].1))))
  }

  /** The value of a width expression, `None` for a node that is neither kind. */
  function XsbValue(ev: Evaluator, params: ParamTable, node: WidthNode): Option<int> {
    match node
    case IntConst(t) => Some(ev.constVal(t))
    case Operator(c) => Some(ev.arith(ExprMap(ev, params, c)))
    case OtherNode => None
  }

  // ---------------------------------------------------------------------------
  // Ports (`_get_ports`)

  /** `f'{v}'` for a width value, where a missing value prints as `None`. */
  function ValueText(v: Option<int>): string {
    if v.None? then "None" else IntToString(v.value)
  }

  /** The bracketed `msb:lsb` range when the two values differ, else nothing. */
  function SliceText(msb: Option<int>, lsb: Option<int>): string {
    if msb == lsb then "" else "[" + ValueText(msb) + ":" + ValueText(lsb) + "]"
  }

  /** The direction tag of a term: `I`, `O` or `IO` for a term tagged `Input`, `Output` or
      `Inout`, and `""` for a term that is not a port. A term with several such tags gets
      the first in that order. */
  function Direction(termtype: set<string>): string {
    if "Input" in termtype then "I"
    else if "Output" in termtype then "O"
    else if "Inout" in termtype then "IO"
    else ""
  }

  predicate IsPortTerm(t: Term) {
    Direction(t.termtype) != ""
  }

  /** The binding a port term starts with: named after the last segment of its dotted name,
      its width evaluated, and of kind `W`. */
  function TermBinding(ev: Evaluator, params: ParamTable, name: string, t: Term): PortBinding {
    PortBinding(LastPiece(name, '.'),
                SliceText(XsbValue(ev, params, t.msb), XsbValue(ev, params, t.lsb)),
                "W", Direction(t.termtype))
  }

  /** The table entry a port term contributes: its short name and its starting binding. */
  function PortEntry(ev: Evaluator, params: ParamTable, x: (string, Term)): (string, PortBinding) {
    (LastPiece(x.0, '.'), TermBinding(ev, params, x.0, x.1))
  }

  /** (short name, binding) for every port term, in term-table order. */
  function PortEntries(ev: Evaluator, params: ParamTable, terms: OMap<string, Term>): seq<(string, PortBinding)> {
    Collect(terms, (x: (string, Term)) => IsPortTerm(x.1), x => PortEntry(ev, params, x))
  }

  function GetPorts(ev: Evaluator, params: ParamTable, a: Analysis): PortTable {
    FromPairs(PortEntries(ev, params, a.terms))
  }

  // ---------------------------------------------------------------------------
  // The session

  /** `VlogAutoInst(flist, top_mod)`: analyse the files, read the parameters, then build
      the port table with them. */
  function Init(analyze: (seq<string>, string) -> Analysis, ev: Evaluator,
                flist: seq<string>, mod: string): Session
  {
    var a := analyze(flist, mod);
    var params := GetParams(a);
    Session(mod, flist, a, params, GetPorts(ev, params, a))
  }

  /** `reinst(flist)`: analyse again, from the given files or else from the stored ones, and
      rebuild both tables. The stored file list itself is left as it was. */
  function Reinst(analyze: (seq<string>, string) -> Analysis, ev: Evaluator,
                  s: Session, flist: Option<seq<string>>): Session
  {
    var a := analyze(flist.GetOr(s.flist), s.mod);
    var params := GetParams(a);
    Session(s.mod, s.flist, a, params, GetPorts(ev, params, a))
  }

  /** The overrides with every name qualified by the module, as `<mod>.<name>`. */
  function Qualified(mod: string, overrides: ParamTable): (r: ParamTable)
    ensures |r| == |overrides|
  {
    seq(|overrides|, i requires 0 <= i < |overrides| => (mod + "." + overrides[i].0, overrides[i].1))
  }

  /** The port table read as overrides (the regular expression is applied to the table
      itself when the caller gives no overrides). */
  function OverridesOf(ports: PortTable): (r: OMap<string, PortOverride>)
    ensures |r| == |ports|
  {
    seq(|ports|, i requires 0 <= i < |ports| => (ports[i].0, PortOverride(ports[i].1.instp, ports[i].1.kind)))
  }

  /** The substitution of the rename pattern applied to every override's instance name. */
  function Renamed(sel: OMap<string, PortOverride>, rename: string -> string): (r: OMap<string, PortOverride>)
    ensures |r| == |sel|
  {
    seq(|sel|, i requires 0 <= i < |sel| => (sel[i].0, sel[i].1.(instp := rename(sel[i].1.instp))))
  }

  /** One round of the override loop: a key already in the table gets the override's
      instance name and kind; any other key is ignored. */
  function ApplyOne(ports: PortTable, k: string, o: PortOverride): PortTable {
    var b := Get(ports, k);
    if b.Some? then Put(ports, k, b.value.(instp := o.instp, kind := o.kind)) else ports
  }

  /** The override loop over `sel`, in order. */
  function ApplyOverrides(ports: PortTable, sel: OMap<string, PortOverride>): PortTable {
    if |sel| == 0 then ports
    else
      var last := sel[|sel| - 1];
      ApplyOne(ApplyOverrides(ports, sel[..|sel| - 1]), last.0, last.1)
  }

  /** `update_inst(param_dict, port_dict, port_regexp)`. An empty dictionary counts as not
      given, as in the source's truth tests; `rename` is the substitution of the compiled
      pattern. Parameter overrides are stored under `<mod>.<name>` and the port table is
      rebuilt from them; then, if port overrides or a pattern are given, the overrides (or,
      without any, the table's own entries) are renamed and copied onto the table. */
  function UpdateInst(ev: Evaluator, s: Session, paramOverrides: ParamTable,
                      portOverrides: OMap<string, PortOverride>, rename: Option<string -> string>): Session
  {
    var s1 := if |paramOverrides| > 0 then
                var params := PutAll(s.params, Qualified(s.mod, paramOverrides));
                s.(params := params, ports := GetPorts(ev, params, s.analysis))
              else s;
    if |portOverrides| == 0 && rename.None? then s1
    else
      var sel := if |portOverrides| > 0 then portOverrides else OverridesOf(s1.ports);
      var sel' := if rename.Some? then Renamed(sel, rename.value) else sel;
      s1.(ports := ApplyOverrides(s1.ports, sel'))
  }

  // ---------------------------------------------------------------------------
  // Lemmas: parameters

  /** A name is a parameter name exactly when some term of that name is tagged `Parameter`. */
  lemma {:induction false} ParamNamesSpec(terms: OMap<string, Term>, k: string)
    ensures k in ParamNames(terms) <==> exists j :: 0 <= j < |terms| && terms[j].0 == k && "Parameter" in terms[j].1.termtype
  {
    if |terms| > 0 {
      var front := terms[..|terms| - 1];
      ParamNamesSpec(front, k);
      assert forall j :: 0 <= j < |front| ==> front[j] == terms[j];
    }
  }

  /** With distinct bind keys, the last pair for `k` exists exactly when `k`'s bind is a
      constant parameter, and holds its value. */
  lemma {:induction false} ParamPairsLast(names: seq<string>, binds: OMap<string, Tree>, k: string)
    requires UniqueKeys(binds)
    ensures LastGet(ParamPairs(names, binds), k) ==
              if k in names && Get(binds, k).Some? && Get(binds, k).value.ConstTree?
              then Some(Get(binds, k).value.value) else None
  {
    if |binds| > 0 {
      var front := binds[..|binds| - 1];
      var last := binds[|binds| - 1];
      var pf := ParamPairs(names, front);
      assert UniqueKeys(front);
      ParamPairsLast(names, front, k);
      if last.0 == k {
        assert k !in Keys(front) by {
          forall i | 0 <= i < |front|
            ensures Keys(front)[i] != k
          {
            assert front[i] == binds[i];
          }
        }
        if !(k in names && last.1.ConstTree?) {
          assert ParamPairs(names, binds) == pf;
        }
      } else {
        var tail := if last.0 in names && last.1.ConstTree? then [(last.0, last.1.value)] else [];
        assert ParamPairs(names, binds) == pf + tail;
        assert Get(binds, k) == Get(front, k);
        if |tail| > 0 {
          assert (pf + tail)[..|pf + tail| - 1] == pf;
          assert LastGet(pf + tail, k) == LastGet(pf, k);
        } else {
          assert pf + tail == pf;
        }
      }
    }
  }

  /** `_get_params`: a name has a value exactly when it names a term tagged `Parameter` whose
      bind is an integer constant, and the value is that constant's text. */
  lemma GetParamsSpec(a: Analysis, k: string)
    requires UniqueKeys(a.binds)
    ensures Get(GetParams(a), k) ==
              if (exists j :: 0 <= j < |a.terms| && a.terms[j].0 == k && "Parameter" in a.terms[j].1.termtype)
                 && Get(a.binds, k).Some? && Get(a.binds, k).value.ConstTree?
              then Some(Get(a.binds, k).value.value) else None
  {
    FromPairsGet(ParamPairs(ParamNames(a.terms), a.binds), k);
    ParamPairsLast(ParamNames(a.terms), a.binds, k);
    ParamNamesSpec(a.terms, k);
  }

  // ---------------------------------------------------------------------------
  // Lemmas: width expressions

  /** The substitutions happen in table order: mapping with a table split in two is mapping
      with the first part, then with the second. */
  lemma {:induction false} ExprMapAppend(ev: Evaluator, p1: ParamTable, p2: ParamTable, expr: string)
    ensures ExprMap(ev, p1 + p2, expr) == ExprMap(ev, p2, ExprMap(ev, p1, expr))
    decreases |p1|
  {
    if |p1| > 0 {
      var e' := ReplaceAll(expr, CodeName(p1[0].0), IntToString(ev.constVal(p1[0].1)));
      assert (p1 + p2)[0] == p1[0];
      assert (p1 + p2)[1..] == p1[1..] + p2;
      assert ExprMap(ev, p1 + p2, expr) == ExprMap(ev, p1[1..] + p2, e');
      assert ExprMap(ev, p1, expr) == ExprMap(ev, p1[1..], e');
      ExprMapAppend(ev, p1[1..], p2, e');
    } else {
      assert p1 + p2 == p2;
    }
  }

  /** An expression that mentions no parameter's (non-empty) code name is left as it is. */
  lemma {:induction false} ExprMapUnused(ev: Evaluator, params: ParamTable, expr: string)
    requires forall j :: 0 <= j < |params| ==> |CodeName(params[j].0)| > 0 && !Contains(expr, CodeName(params[j].0))
    ensures ExprMap(ev, params, expr) == expr
    decreases |params|
  {
    if |params| > 0 {
      ReplaceAbsent(expr, CodeName(params[0].0), IntToString(ev.constVal(params[0].1)));
      assert forall j :: 0 <= j < |params[1..]| ==> params[1..][j] == params[j + 1];
      ExprMapUnused(ev, params[1..], expr);
    }
  }

  // ---------------------------------------------------------------------------
  // Lemmas: ports

  /** A term is a port exactly when one of its tags is a direction, and the tag it gets
      names one of its directions. */
  lemma DirectionSpec(termtype: set<string>)
    ensures Direction(termtype) == "" <==> termtype * {"Input", "Output", "Inout"} == {}
    ensures Direction(termtype) == "I" ==> "Input" in termtype
    ensures Direction(termtype) == "O" ==> "Output" in termtype
    ensures Direction(termtype) == "IO" ==> "Inout" in termtype
  {
    if Direction(termtype) == "" {
      assert "Input" !in termtype && "Output" !in termtype && "Inout" !in termtype;
    } else if "Input" in termtype {
      assert "Input" in termtype * {"Input", "Output", "Inout"};
    } else if "Output" in termtype {
      assert "Output" in termtype * {"Input", "Output", "Inout"};
    } else {
      assert "Inout" in termtype * {"Input", "Output", "Inout"};
    }
  }

  /** A rendered width value holds no `:` and tells values apart. */
  lemma ValueTextSpec(v: Option<int>, w: Option<int>)
    ensures ':' !in ValueText(v)
    ensures ValueText(v) == ValueText(w) ==> v == w
  {
    if v.Some? {
      IntTextShape(v.value);
    }
    if w.Some? {
      IntTextShape(w.value);
    }
    if v.Some? && w.Some? && ValueText(v) == ValueText(w) {
      IntToStringInjective(v.value, w.value);
    }
  }

  /** `[a:b]` determines `a` and `b` when neither holds a colon. */
  lemma BracketPair(a: string, b: string, a': string, b': string)
    requires ':' !in a && ':' !in b && ':' !in a' && ':' !in b'
    requires "[" + a + ":" + b + "]" == "[" + a' + ":" + b' + "]"
    ensures a == a' && b == b'
  {
    var s := "[" + a + ":" + b + "]";
    var s' := "[" + a' + ":" + b' + "]";
    assert s[1 + |a|] == ':';
    assert s'[1 + |a'|] == ':';
    if |a| < |a'| {
      assert false;
    } else if |a'| < |a| {
      assert false;
    }
    assert a == s[1..1 + |a|] == s'[1..1 + |a'|] == a';
    assert b == s[2 + |a|..|s| - 1] == s'[2 + |a'|..|s'| - 1] == b';
  }

  /** The slice text is empty exactly when msb and lsb are equal, and otherwise gives both
      back: distinct widths never print alike. */
  lemma SliceTextSpec(msb: Option<int>, lsb: Option<int>, msb': Option<int>, lsb': Option<int>)
    ensures SliceText(msb, lsb) == "" <==> msb == lsb
    ensures msb != lsb && SliceText(msb, lsb) == SliceText(msb', lsb') ==> msb == msb' && lsb == lsb'
  {
    if msb != lsb && SliceText(msb, lsb) == SliceText(msb', lsb') {
      assert |SliceText(msb, lsb)| > 0;
      ValueTextSpec(msb, msb');
      ValueTextSpec(lsb, lsb');
      ValueTextSpec(msb', msb);
      ValueTextSpec(lsb', lsb);
      BracketPair(ValueText(msb), ValueText(lsb), ValueText(msb'), ValueText(lsb'));
    }
  }

  /** A term table entry is a port term whose last dotted segment is `key`. */
  predicate PortFor(entry: (string, Term), key: string) {
    IsPortTerm(entry.1) && LastPiece(entry.0, '.') == key
  }

  /** `_get_ports`: a short name is in the table exactly when some port term's last dotted
      segment is that name; its binding is that of the LAST such term (an earlier one is
      overwritten in place): named after the segment, of kind `W`, with the term's direction. */
  lemma GetPortsEntry(ev: Evaluator, params: ParamTable, a: Analysis, key: string) returns (j: int)
    ensures Get(GetPorts(ev, params, a), key).None? ==> forall i :: 0 <= i < |a.terms| ==> !PortFor(a.terms[i], key)
    ensures Get(GetPorts(ev, params, a), key).Some? ==>
              && 0 <= j < |a.terms| && PortFor(a.terms[j], key)
              && (forall i :: j < i < |a.terms| ==> !PortFor(a.terms[i], key))
              && Get(GetPorts(ev, params, a), key).value == TermBinding(ev, params, a.terms[j].0, a.terms[j].1)
  {
    var keep := (x: (string, Term)) => IsPortTerm(x.1);
    var entry := x => PortEntry(ev, params, x);
    FromPairsGet(Collect(a.terms, keep, entry), key);
    j := CollectLast(a.terms, keep, entry, key);
  }

  /** The binding a port term starts with is named after the term's last segment, is of kind
      `W`, carries one of the three direction tags, and has an empty slice exactly when its
      msb and lsb evaluate alike. */
  lemma TermBindingSpec(ev: Evaluator, params: ParamTable, name: string, t: Term)
    requires IsPortTerm(t)
    ensures var b := TermBinding(ev, params, name, t);
            && b.instp == LastPiece(name, '.') && b.kind == "W" && b.dir in {"I", "O", "IO"}
            && (b.slice == "" <==> XsbValue(ev, params, t.msb) == XsbValue(ev, params, t.lsb))
  {
    var m, l := XsbValue(ev, params, t.msb), XsbValue(ev, params, t.lsb);
    SliceTextSpec(m, l, m, l);
  }

  // ---------------------------------------------------------------------------
  // Lemmas: the session

  /** Re-instantiating a fresh object without new files changes nothing. */
  lemma ReinstFresh(analyze: (seq<string>, string) -> Analysis, ev: Evaluator, flist: seq<string>, mod: string)
    ensures Reinst(analyze, ev, Init(analyze, ev, flist, mod), None) == Init(analyze, ev, flist, mod)
  {
  }

  /** `reinst` discards every override: its result depends only on the module name, the
      stored file list and the files given. */
  lemma ReinstForgets(analyze: (seq<string>, string) -> Analysis, ev: Evaluator, s: Session, s': Session,
                      flist: Option<seq<string>>)
    requires s.mod == s'.mod && s.flist == s'.flist
    ensures Reinst(analyze, ev, s, flist) == Reinst(analyze, ev, s', flist)
  {
  }

  /** `reinst` with new files does not store them: a later `reinst()` without files goes back
      to the files the object was created with. */
  lemma ReinstKeepsFiles(analyze: (seq<string>, string) -> Analysis, ev: Evaluator, s: Session, flist: seq<string>)
    ensures Reinst(analyze, ev, s, Some(flist)).flist == s.flist
    ensures Reinst(analyze, ev, Reinst(analyze, ev, s, Some(flist)), None) == Reinst(analyze, ev, s, None)
  {
  }

  /** One round of the override loop on a key of the table replaces that key's instance
      name and kind, and touches nothing else. */
  lemma ApplyOneGet(ports: PortTable, k: string, o: PortOverride, k': string)
    ensures Get(ApplyOne(ports, k, o), k') ==
              if k' == k && Get(ports, k).Some? then Some(Get(ports, k).value.(instp := o.instp, kind := o.kind))
              else Get(ports, k')
    ensures Keys(ApplyOne(ports, k, o)) == Keys(ports)
  {
    if Get(ports, k).Some? {
      var b := Get(ports, k).value;
      PutGet(ports, k, b.(instp := o.instp, kind := o.kind), k');
      PutKeys(ports, k, b.(instp := o.instp, kind := o.kind));
    }
  }

  /** The override loop: the keys stay the same; a key with an override takes the instance
      name and kind of its LAST override, and keeps its slice and direction. */
  lemma {:induction false} ApplyOverridesGet(ports: PortTable, sel: OMap<string, PortOverride>, k: string)
    ensures Keys(ApplyOverrides(ports, sel)) == Keys(ports)
    ensures Get(ApplyOverrides(ports, sel), k) ==
              if Get(ports, k).Some? && LastGet(sel, k).Some?
              then Some(Get(ports, k).value.(instp := LastGet(sel, k).value.instp, kind := LastGet(sel, k).value.kind))
              else Get(ports, k)
  {
    if |sel| > 0 {
      var front := sel[..|sel| - 1];
      var last := sel[|sel| - 1];
      ApplyOverridesGet(ports, front, k);
      ApplyOverridesGet(ports, front, last.0);
      ApplyOneGet(ApplyOverrides(ports, front), last.0, last.1, k);
    }
  }

  /** Without any argument `update_inst` changes nothing. */
  lemma UpdateNothing(ev: Evaluator, s: Session)
    ensures UpdateInst(ev, s, [], [], None) == s
  {
  }

  /** Parameter overrides land under `<mod>.<name>`, with the value of the name's last
      override; a key that is not such a name keeps its value. */
  lemma {:induction false} QualifiedLast(mod: string, overrides: ParamTable, k: string)
    ensures LastGet(Qualified(mod, overrides), mod + "." + k) == LastGet(overrides, k)
    ensures forall j :: 0 <= j < |overrides| ==> Keys(Qualified(mod, overrides))[j] == mod + "." + overrides[j].0
  {
    if |overrides| > 0 {
      var front := overrides[..|overrides| - 1];
      QualifiedLast(mod, front, k);
      assert Qualified(mod, overrides)[..|overrides| - 1] == Qualified(mod, front);
      var lk := overrides[|overrides| - 1].0;
      if mod + "." + lk == mod + "." + k {
        assert lk == (mod + "." + lk)[|mod| + 1..] == (mod + "." + k)[|mod| + 1..] == k;
      }
    }
  }

  /** `update_inst(param_dict)`: each overridden parameter reads back, qualified by the
      module name, with its override value; every other stored key keeps its value; and
      with no port overrides and no pattern the port table is rebuilt from the new
      parameters. */
  lemma UpdateParams(ev: Evaluator, s: Session, paramOverrides: ParamTable,
                     portOverrides: OMap<string, PortOverride>, rename: Option<string -> string>, k: string)
    ensures var s' := UpdateInst(ev, s, paramOverrides, portOverrides, rename);
            && (k in Keys(paramOverrides) ==> Get(s'.params, s.mod + "." + k) == LastGet(paramOverrides, k))
            && (k !in Keys(Qualified(s.mod, paramOverrides)) ==> Get(s'.params, k) == Get(s.params, k))
            && (|paramOverrides| > 0 && |portOverrides| == 0 && rename.None? ==>
                  s'.ports == GetPorts(ev, s'.params, s.analysis))
  {
    var q := Qualified(s.mod, paramOverrides);
    var s' := UpdateInst(ev, s, paramOverrides, portOverrides, rename);
    QualifiedLast(s.mod, paramOverrides, k);
    if |paramOverrides| > 0 {
      assert s'.params == PutAll(s.params, q);
      PutAllGet(s.params, q, s.mod + "." + k);
      PutAllGet(s.params, q, k);
      if k in Keys(paramOverrides) {
        var j :| 0 <= j < |paramOverrides| && Keys(paramOverrides)[j] == k;
        assert Keys(q)[j] == s.mod + "." + k;
      }
    } else {
      assert s' == s || s'.params == s.params;
    }
  }

  /** The table whose ports the overrides act on: rebuilt when parameters were overridden. */
  function BasePorts(ev: Evaluator, s: Session, paramOverrides: ParamTable): PortTable {
    if |paramOverrides| > 0 then GetPorts(ev, PutAll(s.params, Qualified(s.mod, paramOverrides)), s.analysis)
    else s.ports
  }

  /** `update_inst(port_dict=..., port_regexp=...)` with explicit port overrides: the keys stay
      the same; a key with an override takes its kind and its (renamed) instance name; slice
      and direction never change, and keys without an override are untouched. */
  lemma UpdatePortsGiven(ev: Evaluator, s: Session, paramOverrides: ParamTable,
                         portOverrides: OMap<string, PortOverride>, rename: Option<string -> string>, k: string)
    requires |portOverrides| > 0
    ensures var ports := UpdateInst(ev, s, paramOverrides, portOverrides, rename).ports;
            var base := BasePorts(ev, s, paramOverrides);
            && Keys(ports) == Keys(base)
            && Get(ports, k) ==
                 if Get(base, k).Some? && LastGet(portOverrides, k).Some?
                 then Some(Get(base, k).value.(instp := (if rename.Some? then rename.value(LastGet(portOverrides, k).value.instp)
                                                         else LastGet(portOverrides, k).value.instp),
                                               kind := LastGet(portOverrides, k).value.kind))
                 else Get(base, k)
  {
    var base := BasePorts(ev, s, paramOverrides);
    var sel' := if rename.Some? then Renamed(portOverrides, rename.value) else portOverrides;
    assert UpdateInst(ev, s, paramOverrides, portOverrides, rename).ports == ApplyOverrides(base, sel');
    ApplyOverridesGet(base, sel', k);
    if rename.Some? {
      RenamedLast(portOverrides, rename.value, k);
    }
  }

  /** Renaming keeps the keys and renames the last override of each. */
  lemma {:induction false} RenamedLast(sel: OMap<string, PortOverride>, rename: string -> string, k: string)
    ensures LastGet(Renamed(sel, rename), k) ==
              if LastGet(sel, k).Some? then Some(LastGet(sel, k).value.(instp := rename(LastGet(sel, k).value.instp))) else None
  {
    if |sel| > 0 {
      var front := sel[..|sel| - 1];
      RenamedLast(front, rename, k);
      assert Renamed(sel, rename)[..|sel| - 1] == Renamed(front, rename);
    }
  }

  /** The table read as overrides gives every key its own instance name and kind back. */
  lemma {:induction false} OverridesOfLast(ports: PortTable, k: string)
    ensures LastGet(OverridesOf(ports), k) ==
              if Get(ports, k).Some? then Some(PortOverride(Get(ports, k).value.instp, Get(ports, k).value.kind)) else None
  {
    if |ports| > 0 {
      var front := ports[..|ports| - 1];
      OverridesOfLast(front, k);
      assert OverridesOf(ports)[..|ports| - 1] == OverridesOf(front);
    }
  }

  /** `update_inst(port_regexp=...)` without port overrides renames the instance name of
      every port of the table and changes nothing else. */
  lemma UpdatePortsRenamed(ev: Evaluator, s: Session, paramOverrides: ParamTable, rename: string -> string, k: string)
    ensures var ports := UpdateInst(ev, s, paramOverrides, [], Some(rename)).ports;
            var base := BasePorts(ev, s, paramOverrides);
            && Keys(ports) == Keys(base)
            && Get(ports, k) == if Get(base, k).Some? then Some(Get(base, k).value.(instp := rename(Get(base, k).value.instp))) else None
  {
    var base := BasePorts(ev, s, paramOverrides);
    var sel' := Renamed(OverridesOf(base), rename);
    assert UpdateInst(ev, s, paramOverrides, [], Some(rename)).ports == ApplyOverrides(base, sel');
    ApplyOverridesGet(base, sel', k);
    RenamedLast(OverridesOf(base), rename, k);
    OverridesOfLast(base, k);
  }
}
