# vim-vlogautoinst core, modelled in Dafny

vim-vlogautoinst is a Vim plugin that writes Verilog module instantiations. It has two
generations of its Python core: `vlogai/vai.py` (current) and `pyvai/vai.py` (earlier),
plus the buffer helpers in `vlogai/vimutils.py`. This project models what the core does
with the Vim buffer and the module's tables:

- **Scanner** (`scanner.dfy`): the buffer scan. It covers `grep_vim_buf`, the file list
  built from `// vai-files:` and `// vai-incdirs:` comments (`get_vai_files`, both
  variants), and `find_declares_ln`. That function locates the four
  `/* vai-auto-wire|port-begin|end */` markers and their indentation.
- **Patterns** (`patterns.dfy`): the regular expressions the core compiles, each written
  out as a predicate. They are the port-type tag `//([WP]?)([IO]+)`, the
  `<name> ( /* vai-auto-inst */` directive, the declaration markers and the
  keyword comments.
- **Instances** (`instances.dfy`): `get_instances` in both variants, over the parser's
  result given as data. It keeps the instantiations whose header carries the directive.
  For each one it records the begin and end line, the indentation, the parameters and the
  port table read back from the buffer's `//WI`-style tags.
- **AutoInst** (`auto_inst.dfy`): the `VlogAutoInst` class. It covers the parameter and port
  tables (`_get_params`, `_get_param_value`, `_expr_map`, `_get_xsb_value`, `_get_ports`)
  and the two operations that change them, `update_inst` and `reinst`. The object's state is an
  immutable `Session` record, and each operation returns the updated record instead of
  assigning the object's fields. One `Session` serves both variants: up to `reinst`, the pyvai class
  (pyvai/vai.py:158-284) is the vlogai code apart from debug prints and a constructor that
  does not catch `ParseError`. Its `generate_inst` differs, and CodeGen models both
  versions; its `generate_declare` is empty.
- **CodeGen** (`codegen.dfy`): the generated text. It covers `generate_inst` in both
  variants, `generate_wire_declare`, `generate_port_declare` and the module-level
  `generate_declares`.
- **VimUtils** (`vimutils.dfy`): `echo`, `insert`, `delete` and `replace` on a buffer of
  lines numbered from 1.
- **OrderedMaps**, **Strings**, **Records** and **Wrappers**: support modules. A Python
  dict is an insertion-ordered association list: updating an existing key keeps its
  place, and a new key goes to the end. The string helpers model `str.split`,
  `str.join`, `str.replace`, `rstrip`, `str(int)` and format padding.

The Verilog parser, the dataflow analyser, `os.path.exists`, `glob.glob`, Python's `eval`
and `DFIntConst.eval` are not modelled. Their results are inputs to the functions that use
them: the parse result is data, and the others are function-typed parameters.

## Model

| member | source | states |
|---|---|---|
| Scanner.Grep | vlogai/vai.py:49-58 | every line returned is a matching buffer line with its trailing whitespace stripped, and there are no more of them than buffer lines |
| Scanner.GrepComplete | vlogai/vai.py:55-57 | nothing is lost: every matching buffer line is among the lines returned, with its trailing whitespace stripped |
| Scanner.GrepAppend | vlogai/vai.py:49-58 | grep keeps buffer order: grepping a concatenation gives the matches of the first part followed by those of the second |
| Scanner.Entries | vlogai/vai.py:99 | the entries hold no blank, comma or colon, there is at least one, and joining them with commas gives back the text after the last colon with its blanks removed |
| Scanner.GetVaiFiles | vlogai/vai.py:91-107 | no requires and no contract of its own: the existing `vai-files` entries, then the `*.v` and `*.sv` listings of every include directory, with `present` and `glob` standing for `os.path.exists` and `glob.glob`; Scanner.VaiFilesOrder and Scanner.VaiFilesAppend state its properties |
| Scanner.PyGetVaiFiles | pyvai/vai.py:58-73 | no requires and no contract of its own: every `vai-files` entry, with no existence test, then the include-directory listings; Scanner.VaiFilesVariants relates it to the vlogai list |
| Scanner.VaiFilesVariants | pyvai/vai.py:58-73 | when every file exists, the vlogai file list equals the pyvai one, which has no existence filter |
| Scanner.VaiFilesDeclared | vlogai/vai.py:95-107 | from the buffer to the list: an existing name on any `vai-files` line is in the result, and so is every `*.v` or `*.sv` listing of a directory named on any `vai-incdirs` line |
| Scanner.AllEntriesComplete | vlogai/vai.py:98-100 | every comma-separated entry of every grepped line is collected |
| Scanner.IncdirFilesHas | vlogai/vai.py:102-106 | the `*.v` and `*.sv` listings of every include directory are collected |
| Scanner.VaiFilesOrder | vlogai/vai.py:95-107 | the list starts with existing, separator-free names taken from `vai-files` lines, and every existing declared name is among them; the rest is exactly the `*.v` then `*.sv` listings of the include directories |
| Scanner.FilterAppend | vlogai/vai.py:98-100 | the existence filter keeps order: filtering a concatenation gives the kept entries of the first part followed by those of the second |
| Scanner.VaiFilesAppend | vlogai/vai.py:95-100 | the existing files declared in the top part of the buffer come before those declared below it |
| Scanner.MarkerStep | vlogai/vai.py:72-86 | after one more line, a marker not yet found is found on that line exactly when the line is that marker |
| Scanner.ScanLineFields | vlogai/vai.py:73-86 | because a line is at most one marker, the `continue` after each hit never hides a marker: each field is set on this line exactly when it was unset and the line is that marker |
| Scanner.ScanLineStep | vlogai/vai.py:72-86 | one loop iteration extends "every first marker among the lines scanned so far is recorded" by one line |
| Scanner.FindDeclares | vlogai/vai.py:61-88 | each returned line number is that of the marker's first occurrence (0 when absent), and each indentation is the leading whitespace of its begin-marker line |
| Scanner.ScannedAll | vlogai/vai.py:72-88 | a scan over the whole buffer has found the first occurrence of all four markers |
| Patterns.MarkersExclusive | vlogai/vai.py:66-69 | no line matches two different declaration markers, so the order in which the scan tests them cannot matter |
| Patterns.MarkerWritten | vlogai/vai.py:66-69 | a marker comment written behind `n` blanks is recognised as that marker, with indentation `n` |
| Patterns.IORunSpec | vlogai/vai.py:128 | the `[IO]+` group takes the whole run of `I`/`O` characters and stops at the first other character |
| Patterns.PortTagAtSpec | vlogai/vai.py:128 | a tag match at a position has kind `""`, `W` or `P`, a non-empty `I`/`O` direction, and literally reads `//` + kind + direction there |
| Patterns.PortTagSpec | vlogai/vai.py:149-151 | the port-type search fails exactly when no tag occurs in the line; when it succeeds its groups occur in the line behind `//` |
| Patterns.PortTagFromSpec | vlogai/vai.py:149 | `search` returns the leftmost tag: no tag starts between the start position and the match |
| Patterns.DirectiveFromSpec | vlogai/vai.py:161-167 | the directive search succeeds exactly when the directive pattern matches at some position of the line |
| Patterns.DirectiveSpaced | vlogai/vai.py:161 | a line ending in `<name> ( /* vai-auto-inst */` carries the directive for that name |
| Patterns.PiecesSpaced | vlogai/vai.py:161 | pieces written one blank apart match the pattern that allows any whitespace between them |
| Instances.SliceOf | vlogai/vai.py:146 | the slice is empty for a plain identifier and otherwise bracketed |
| Instances.GetInstances | vlogai/vai.py:110-193 | requires every port line to be a line of the buffer (see Instances.NodeOk under Left out); no contract of its own: maps each directed instance name to its record, a later instance of the same name replacing the earlier one; Instances.KeptLookup, Instances.GetInstanceLast and Instances.RecordAccepted state its properties |
| Instances.PyGetInstances | pyvai/vai.py:76-153 | requires every port line to be a line of the buffer and at most one child per actual; no contract of its own: the pyvai dictionary of records, which Instances.PyRecordAgrees and Instances.PyPortAgrees relate to the vlogai one |
| Instances.SliceRoundTrip | vlogai/vai.py:144-146 | splitting the inside of a slice on `:` gives back the actual's children after the first |
| Instances.BindingTag | vlogai/vai.py:148-153 | the binding's kind is `""`, `W` or `P`; its direction is empty exactly when the connection's line has no tag; a kind never comes without a direction; the tag occurs in the line |
| Instances.PortTableGet | vlogai/vai.py:142-153 | the port table has an entry exactly for each connected port name, and each name maps to the binding of its last connection |
| Instances.PortTableAt | vlogai/vai.py:142-153 | a connection with no later connection of the same port name gives that name's entry in the port table |
| Instances.TwoPorts | vlogai/vai.py:142-153 | connections to two different ports leave two entries in the port table |
| Instances.PortLineBounds | vlogai/vai.py:154-156 | every port line lies between the minimum and maximum port line |
| Instances.AnyDirectiveExists | vlogai/vai.py:160-167 | the validation loop decides exactly whether some line is a non-comment directive line |
| Instances.DirectiveWindowExists | vlogai/vai.py:163-167 | the loop over `vim_buf[lo:hi]` tests exactly the buffer lines with an index in `[lo, hi)` |
| Instances.RecordAccepted | vlogai/vai.py:158-170 | an instantiation is kept exactly when a non-comment line from its declaration line up to its first port line carries its directive |
| Instances.RecordDirected | vlogai/vai.py:168-170 | a record exists exactly when the directive test passes |
| Instances.NoPortsWindow | vlogai/vai.py:155-156 | with no port connections only the declaration line is tested, and the end line is at least the line after it |
| Instances.EndLineSpec | vlogai/vai.py:172-180 | `end_ln` is the first non-comment line with `;` at or after the last port line, or that port line when there is none |
| Instances.EndFromSpec | vlogai/vai.py:175-180 | the search for the terminating line returns the first one at or after its start, or reports that there is none |
| Instances.RecordHeader | vlogai/vai.py:182-188 | a kept record begins at the declaration line, which lies in the buffer, and has that line's leading whitespace as indentation |
| Instances.RecordSpan | vlogai/vai.py:172-189 | a kept record's end line is at or after every port line |
| Instances.KeptKeys | vlogai/vai.py:186-192 | the names in the instance dict are exactly those of instantiations that were kept |
| Instances.KeptLast | vlogai/vai.py:186-192 | the value under a name is the record of the last kept instantiation with that name |
| Instances.KeptLookup | vlogai/vai.py:186-192 | a dict lookup by name finds a record exactly when some kept instantiation has that name, and then it is the last one's |
| Instances.GetInstanceFound | vlogai/vai.py:193 | `get_instances(..., inst_name)` finds a name exactly when some instantiation with that name carries the directive |
| Instances.GetInstanceLast | vlogai/vai.py:186-193 | when found, the answer is the record of the last directed instantiation with that name |
| Instances.PyRecordAgrees | pyvai/vai.py:76-153 | the pyvai variant keeps the same instantiations, with the same module, begin and end lines and parameters, as vlogai |
| Instances.PyPortAgrees | pyvai/vai.py:107-118 | pyvai's single `port` entry is absent exactly when vlogai's port table is empty, and otherwise equals vlogai's entry for the last connection's port name |
| Instances.PyPortsCollapse | pyvai/vai.py:107-118 | with connections to two different ports, vlogai's port table has two entries while pyvai keeps only the last connection's fields |
| AutoInst.ParamNamesSpec | vlogai/vai.py:298-303 | a name is collected exactly when some term of that name is tagged `Parameter` |
| AutoInst.ParamPairsLast | vlogai/vai.py:263-271 | with distinct bind keys, a name gets a value exactly when it is a parameter name whose bind tree is an integer constant, and the value is that constant |
| AutoInst.GetParamsSpec | vlogai/vai.py:263-303 | `_get_params` maps a name to a value exactly when it names a `Parameter` term bound to an integer constant, and the value is the constant's text |
| AutoInst.ExprMap | vlogai/vai.py:286-296 | no requires and no contract of its own: every parameter's code name replaced by its value, in table order; AutoInst.ExprMapAppend and AutoInst.ExprMapUnused state its properties |
| AutoInst.ExprMapAppend | vlogai/vai.py:286-296 | substitutions apply in table order: mapping with a table split in two is mapping with the first part, then the second |
| AutoInst.ExprMapUnused | vlogai/vai.py:286-296 | an expression that mentions no parameter's code name is left unchanged |
| AutoInst.DirectionSpec | vlogai/vai.py:308-312 | a term is a port exactly when one of its tags is `Input`, `Output` or `Inout`, and the direction letter names one of its tags |
| AutoInst.ValueTextSpec | vlogai/vai.py:316 | a rendered width value holds no colon, and different values render differently |
| AutoInst.SliceTextSpec | vlogai/vai.py:316 | the slice text is empty exactly when msb equals lsb; otherwise it determines both values |
| AutoInst.GetPortsEntry | vlogai/vai.py:305-320 | a short name is in the port table exactly when some port term's last dotted segment is that name, and its binding comes from the last such term |
| AutoInst.TermBindingSpec | vlogai/vai.py:310-319 | a port term's binding is named after its last segment, has kind `W` and a direction among `I`, `O` and `IO`, and has an empty slice exactly when msb and lsb evaluate alike |
| AutoInst.GetPorts | vlogai/vai.py:305-320 | no requires and no contract of its own: the table of port terms keyed by the last segment of their names; AutoInst.GetPortsEntry and AutoInst.TermBindingSpec state its entries |
| AutoInst.Reinst | vlogai/vai.py:354-367 | no requires and no contract of its own: both tables rebuilt from a fresh analysis of the given or stored files; AutoInst.ReinstFresh, AutoInst.ReinstForgets and AutoInst.ReinstKeepsFiles state its properties |
| AutoInst.ReinstFresh | vlogai/vai.py:354-367 | `reinst()` on a freshly built object changes nothing |
| AutoInst.ReinstForgets | vlogai/vai.py:354-367 | the result of `reinst` depends only on the module name, the stored file list and the files given: every override is discarded |
| AutoInst.ReinstKeepsFiles | vlogai/vai.py:361 | `reinst(flist)` does not store the new files: a later `reinst()` analyses the original ones again |
| AutoInst.ApplyOneGet | vlogai/vai.py:349-352 | one override round replaces the instance name and kind of a key already in the table and touches nothing else |
| AutoInst.ApplyOverridesGet | vlogai/vai.py:349-352 | after the override loop the keys are unchanged, and a key with overrides carries the instance name and kind of its last override, keeping its slice and direction |
| AutoInst.UpdateInst | vlogai/vai.py:322-352 | no requires and no contract of its own: parameter overrides stored qualified and the port table rebuilt, then port overrides (or the table itself) renamed and copied onto the table; AutoInst.UpdateNothing, AutoInst.UpdateParams, AutoInst.UpdatePortsGiven and AutoInst.UpdatePortsRenamed state its properties |
| AutoInst.UpdateNothing | vlogai/vai.py:332-341 | `update_inst()` without arguments changes nothing |
| AutoInst.QualifiedLast | vlogai/vai.py:334 | every override is stored under `<mod>.<name>`, with the value of the name's last override |
| AutoInst.UpdateParams | vlogai/vai.py:332-337 | overridden parameters read back under `<mod>.<name>` with the override value, other stored keys keep theirs, and without port overrides or a pattern the port table is rebuilt from the new parameters |
| AutoInst.UpdatePortsGiven | vlogai/vai.py:339-352 | with explicit port overrides, the port table keeps its keys; a key with an override takes that override's kind and its instance name, renamed when a pattern is given; slice and direction never change |
| AutoInst.RenamedLast | vlogai/vai.py:345-348 | the substitution renames the last override of every key and keeps the keys |
| AutoInst.OverridesOfLast | vlogai/vai.py:344 | the table read as overrides gives every key its own instance name and kind back |
| AutoInst.UpdatePortsRenamed | vlogai/vai.py:344-352 | a pattern without port overrides renames the instance name of every port and changes nothing else |
| CodeGen.ConnectionColumns | vlogai/vai.py:382 | a `name (value)` cell pads the name and the value to their column widths, with nothing else between them |
| CodeGen.ParamEntriesAligned | vlogai/vai.py:377-385 | every parameter line lays out its short name and value at the width of the longest short name and the longest value, and some parameter reaches each width |
| CodeGen.PortEntriesAligned | vlogai/vai.py:388-394 | every port line lays out the port name and its connection at the width of the longest name and the longest connection, followed by the port's comment |
| CodeGen.GenerateInst | vlogai/vai.py:369-397 | requires a non-empty port table, since `max` over it raises otherwise; no contract of its own: the instantiation text of either variant; CodeGen.InstText, CodeGen.PortLineAt and CodeGen.VariantLines state its lines |
| CodeGen.BlockText | vlogai/vai.py:378-384 | the `\n<ind>,.` join reads as one line per entry, the first behind ` .` and the others behind `,.` |
| CodeGen.InstText | vlogai/vai.py:369-397 | the generated instantiation is its lines joined by newlines: header (with the parameter block when there are parameters), one line per port, closing line |
| CodeGen.HeaderDirective | vlogai/vai.py:387 | the vlogai instantiation has one line per parameter and per port plus its fixed lines, and its header line carries the directive for the instance name; when the header starts with `)` or with a module name that begins with neither a blank nor `/`, the header is moreover not a comment line, so it passes the directive test of `get_instances` whenever it lies in the instance's window (the window's position depends on the parser's line numbers, which this lemma does not fix) |
| CodeGen.HeadLineNotComment | vlogai/vai.py:375-387 | a header line that begins, behind its indentation, with `)` or a module name starting with neither a blank nor `/` is not a comment line |
| CodeGen.PortLineText | pyvai/vai.py:303-310 | port line `j` is the aligned connection followed by `//` and the kind and direction (vlogai) or the direction alone (pyvai) |
| CodeGen.PortLineAt | vlogai/vai.py:387-395 | in the generated lines, port `j` sits at the header's index plus `1 + j` |
| CodeGen.VariantFrame | pyvai/vai.py:285-312 | both variants have the same number of lines and the same lines above the header and at the close; vlogai's header line is pyvai's plus ` /* vai-auto-inst */` |
| CodeGen.VariantLines | pyvai/vai.py:285-312 | the two variants write the same lines except that vlogai adds the directive to the header and the kind tag in front of each port's direction |
| CodeGen.KindKeys | vlogai/vai.py:206-213 | a declaration list of one kind is keyed exactly by the instance names of that kind's ports |
| CodeGen.KindEntryFrom | vlogai/vai.py:206-213 | every declaration entry comes from a port of that kind |
| CodeGen.KindEntryOf | vlogai/vai.py:206-213 | every port of the kind contributes its declaration entry |
| CodeGen.WireDictKeys | vlogai/vai.py:201-208 | the wire dictionary is keyed exactly by the names of the `W` ports of all instances |
| CodeGen.PortDictKeys | vlogai/vai.py:209-214 | the port dictionary is keyed exactly by the names of the `P` ports of all instances |
| CodeGen.WireCount | vlogai/vai.py:235 | the wire count is the number of distinct `W` names |
| CodeGen.PortCount | vlogai/vai.py:235 | the port count is the number of distinct `P` names |
| CodeGen.DeclaresCounts | vlogai/vai.py:196-235 | `generate_declares` returns the numbers of distinct wire and port names, and leaves a block out exactly when no port of its kind exists |
| CodeGen.GenerateDeclares | vlogai/vai.py:196-235 | requires every instance to have a port, since `max` over an empty table raises; no contract of its own: the framed port and wire declarations and their counts; CodeGen.DeclaresCounts, CodeGen.WireOrder, CodeGen.PortOrder, CodeGen.DeclaresLast, CodeGen.DeclaresText and CodeGen.DeclareMarkers state its properties |
| CodeGen.WireOrder | vlogai/vai.py:200-208 | the wire declarations are written in the order of each name's first occurrence as the loops visit the instances and their ports (the first occurrences of the visited `W` names, so an earlier line's name occurs before any occurrence of a later line's name), and each line holds the last declaration generated for its name |
| CodeGen.PortOrder | vlogai/vai.py:200-214 | the same for the port declarations and the `P` names |
| CodeGen.CollectKeys | vlogai/vai.py:206-213 | a comprehension's keys are the names of that kind's ports, in table order |
| CodeGen.WireSequence | vlogai/vai.py:202-208 | the wire entries generated over all instances are keyed by the `W` port names in visiting order |
| CodeGen.PortSequence | vlogai/vai.py:202-214 | the port entries generated over all instances are keyed by the `P` port names in visiting order |
| CodeGen.DeclaresLast | vlogai/vai.py:200-214 | when several instances declare one name, the declaration kept is the last instance's last entry for it |
| CodeGen.DeclaresText | vlogai/vai.py:217-233 | each declaration block is its lines joined by newlines: begin marker, one line per declaration, end marker |
| CodeGen.DeclareMarkers | vlogai/vai.py:221-233 | scanning a generated block finds its begin and end markers on its first and last lines; the wire markers have the requested indentation, the port markers one more |
| CodeGen.WireEntryColumns | vlogai/vai.py:206 | a wire declaration is `wire `, the slice padded to its column, a blank, the name padded to its column, and `;` |
| CodeGen.GenerateWireDeclare | vlogai/vai.py:399-412 | requires a non-empty port table, since `max` over it raises otherwise; no contract of its own: one wire declaration per `W` port; CodeGen.WireLinesAligned and CodeGen.WireDeclareLines state its lines |
| CodeGen.GeneratePortDeclare | vlogai/vai.py:415-428 | requires a non-empty port table, since `max` over it raises otherwise; no contract of its own: one port declaration per `P` port; CodeGen.PortLinesAligned and CodeGen.PortDeclareLines state its lines |
| CodeGen.PortDeclColumns | vlogai/vai.py:210-212 | a port declaration starts with `input` exactly for `I` and `output` exactly for `O` (else `inout`), followed by the padded slice and the name |
| CodeGen.WireLinesAligned | vlogai/vai.py:399-412 | every line of `generate_wire_declare` declares a `W` port with columns as wide as the widest slice and name over the table, so all lines have one length |
| CodeGen.PortLinesAligned | vlogai/vai.py:415-428 | every line of `generate_port_declare` declares a `P` port with the slice column as wide as the widest slice over the table |
| CodeGen.WireDeclareLines | vlogai/vai.py:399-412 | `generate_wire_declare` writes one indented line per wire, or the indentation alone when there is none |
| CodeGen.PortDeclareLines | vlogai/vai.py:415-428 | `generate_port_declare` writes one line per external port, the later ones behind the indentation and a comma, or the indentation alone when there is none |
| OrderedMaps.PutGet | vlogai/vai.py:152-153 | `d.update({k: v})` maps `k` to `v` and leaves every other key's value alone |
| OrderedMaps.PutKeys | vlogai/vai.py:152-153 | an update appends the key only when it is new, so keys keep their first-insertion order |
| OrderedMaps.PutAllGet | vlogai/vai.py:335 | `d.update(n)`: keys of `n` take the value of their last entry in `n`, every other key keeps its value |
| OrderedMaps.PutAllKeys | vlogai/vai.py:208 | updating keeps the old keys in front, adds exactly the new keys, and keeps keys distinct |
| OrderedMaps.FromPairsLookup | vlogai/vai.py:140 | a dict built from pairs holds a key exactly when some pair has it, and the last pair's key maps to its value |
| OrderedMaps.FromPairsKeys | vlogai/vai.py:140 | a dict built from pairs has exactly one entry per distinct key |
| OrderedMaps.CollectLast | vlogai/vai.py:206-207 | a filtered comprehension's last entry for a key comes from the last accepted element with that key |
| OrderedMaps.PutAllOrder | vlogai/vai.py:208 | `d.update(n)` appends the keys of `n` not yet present, in order of first appearance |
| OrderedMaps.AddNewHas | vlogai/vai.py:208 | the keys after an update are exactly the old keys and the new ones |
| OrderedMaps.AddNewAppend | vlogai/vai.py:202-214 | adding the keys of two lists in one go is adding those of the first, then those of the second |
| OrderedMaps.AddNewDedup | vlogai/vai.py:208 | updating with a dictionary built from a list adds the keys the list itself would add |
| OrderedMaps.AddNewFirst | vlogai/vai.py:200 | the keys added to an empty dictionary are distinct, are all the given keys, and follow the order of first occurrence |
| OrderedMaps.UpdateAllOrder | vlogai/vai.py:202-214 | repeated updates leave the keys as the first occurrences of all the lists' keys, in order |
| OrderedMaps.KeysAppend | vlogai/vai.py:202-214 | the keys of a concatenation are the keys of its parts, one after the other |
| OrderedMaps.GetEntry | vlogai/vai.py:223 | with distinct keys, looking up an entry's key gives that entry's value |
| OrderedMaps.UpdateAllUnique | vlogai/vai.py:202-214 | repeated updates keep keys distinct, and a key keeps the place of its first appearance |
| OrderedMaps.UpdateAllKeys | vlogai/vai.py:202-214 | a key of repeated updates is a key of one of the lists, and every such key is present |
| OrderedMaps.UpdateAllGet | vlogai/vai.py:202-214 | repeated updates give each key the value of its last entry over all the lists |
| Strings.SkipSpacesExact | vlogai/vai.py:65 | `^(\s*)` consumes exactly the leading whitespace run |
| Strings.PaddedField | vlogai/vai.py:206 | a text padded to width `w` between two other texts starts right after the first, is followed by blanks up to the field's width, and the second text starts right after that |
| Strings.IntToStringInjective | vlogai/vai.py:316 | decimal rendering tells integers apart |
| Strings.NatToStringRoundTrip | vlogai/vai.py:316 | parsing a rendered natural number gives it back |
| Strings.JoinSplit | vlogai/vimutils.py:23 | joining the pieces of `split('\n')` with newlines gives back the text |
| Strings.SplitJoin | vlogai/vimutils.py:23 | splitting newline-joined lines that hold no newline gives back the lines |
| VimUtils.Echo | vlogai/vimutils.py:18-19 | no requires and no contract of its own: the `echohl` command around the quoted message; VimUtils.EchoSpec states its text |
| VimUtils.Insert | vlogai/vimutils.py:22-23 | no requires; `None` stands for the error `append` raises; VimUtils.InsertSpec states when it succeeds and where the lines go |
| VimUtils.Delete | vlogai/vimutils.py:26-27 | requires `start_ln >= 1` and `end_ln >= 0` (see Left out); no contract of its own: the clipped slice removed; VimUtils.DeleteRange and VimUtils.DeleteNothing state its effect |
| VimUtils.Replace | vlogai/vimutils.py:30-32 | the same requires as VimUtils.Delete; no contract of its own: delete, then insert at the start line; VimUtils.ReplaceSpec and VimUtils.ReplaceOutOfRange state its effect |
| VimUtils.EchoSpec | vlogai/vimutils.py:18-19 | the message sits between the quotes of the echo command, behind the highlight group named after the severity |
| VimUtils.InsertSpec | vlogai/vimutils.py:22-23 | insertion succeeds exactly for a line number from 1 to one past the end; the text's lines become lines `ln` onward, and the old lines keep their order around them |
| VimUtils.DeleteRange | vlogai/vimutils.py:26-27 | deleting lines `s..e` inside the buffer removes exactly them: earlier lines keep their numbers, later ones move up by the range's length |
| VimUtils.DeleteNothing | vlogai/vimutils.py:26-27 | the buffer is unchanged exactly when the range starts past the end or ends before it starts |
| VimUtils.ReplaceSpec | vlogai/vimutils.py:30-32 | replacing lines `s..e` puts the text's lines in their place; lines above keep their numbers and lines below follow in order |
| VimUtils.ReplaceOutOfRange | vlogai/vimutils.py:30-32 | a replacement fails exactly when it starts more than one line past the end of the buffer |

## Left out

- `parse_args` (both variants): command-line parsing with argparse.
- The Verilog parser and `VerilogDataflowAnalyzer`: their results are inputs (`InstNode` lists, and the term and bind tables of `Analysis`).
- `os.path.exists`, `glob.glob`, `DFIntConst.eval` and Python's `eval`: external calls, passed in as functions.
- `print` calls and the `__main__` demonstrations: they only report output.
- The `ParseError` catch in the vlogai constructor (vlogai/vai.py:250-253) prints the error and carries on, building the tables from whatever the analyser holds. The model's `analyze` input stands for that possibly partial result, so only the printing is left out.
- AutoInst.Evaluator: evaluation and analysis never fail in the model, because the evaluators and `analyze` are total functions. In the source, `DFIntConst(v).eval()` raises on an override text that is not an integer (vlogai/vai.py:334, 294). `int(eval(...))` raises NameError when a width names a parameter whose bind was skipped as non-constant, because that parameter's code name is never substituted (vlogai/vai.py:281, 290-294). `reinst` does not catch the analyser's `ParseError` (vlogai/vai.py:363), and neither does the pyvai constructor (pyvai/vai.py:166-170). These error paths are not modelled.
- Instances.PortArg: an unconnected port `.p()` is not representable, because every connection carries an `Actual`. The parser gives such a port no argument, so `p.argname.children()` raises AttributeError (vlogai/vai.py:144, pyvai/vai.py:109). That happens for every instantiation of the parsed files, before the directive test, so a single `.p()` makes `get_instances` fail. The model covers only parses without unconnected ports.
- Instances.NodeOk: the model requires every port line of an instantiation to be a line of the buffer. The parse comes from the files on disk but the lines are read from the live buffer, and a port line past the buffer's end makes the source raise IndexError (vlogai/vai.py:149, pyvai/vai.py:114). That error path is not modelled.
- Strings.PadRight: a field width of 0 is taken to leave the text as it is, which is what Python 3.10 and later do. On Python 3.6 to 3.9, `f'{s:{0}}'` raises ValueError. That happens in the declaration generators when every port of a table is scalar (vlogai/vai.py:204-212, 408-409, 423-425). The model assumes Python 3.10 or later.
- The pyvai `generate_declare`: its body is `pass`.
- AutoInst.Direction: the source takes the first element of a set intersection, whose order Python leaves unspecified; the model picks `Input`, then `Output`, then `Inout`, one of the possible outcomes.
- Patterns.DirectiveFrom: the instance name is spliced into the regular expression unescaped; the model matches it literally, so a name holding regex metacharacters is not modelled.
- Instances.PyRecord: the pyvai variant joins parse-tree nodes to build a slice, which raises for two or more children; the model requires at most one child.
- CodeGen.GenerateInst: `max` over an empty port table raises; the model requires a non-empty table (likewise for the declaration generators and `generate_declares`).
- VimUtils.Delete: line numbers below 1 would become Python negative slice indices; the model requires `start_ln >= 1` and `end_ln >= 0`.
- VimUtils.Delete: Vim's buffer always keeps at least one line; deleting every line is modelled as leaving an empty buffer.
- VimUtils.Replace: for the same reason, replacing every line (`start_ln = 1`, `end_ln` at or past the last line) leaves the inserted text's lines followed by the one empty line Vim keeps, one line more than VimUtils.ReplaceSpec's length formula gives; the model does not add that line.
- AutoInst.UpdateInst: the source also rewrites the caller's `port_dict` in place when a pattern is given; only the object's own tables are modelled.
- AutoInst.UpdateInst: the rename pattern is an opaque function `string -> string`; nothing is claimed about the regex substitution itself.
- VimUtils.Echo: the default severity is the constant `DefaultSeverity`; Python's default-argument mechanism is not modelled.

## Findings

| source | as written | input that shows it | evidently intended | confidence | as-written member | corrected member |
|---|---|---|---|---|---|---|
| pyvai/vai.py:117-118 | each connection's fields are merged into the instance's one `port` dict, so each connection overwrites the previous one | an instance with the directive and connections `.a(x)` and `.b(y)` on tagged lines: pyvai keeps only `b`'s fields | a dict keyed by port name, `{portname: {...}}`, as vlogai/vai.py:152-153 builds it | high, not executed | Instances.PyPortsCollapse | Instances.PortTableGet |
