# SysL L-system core in Dafny

SysL grows plant-like shapes with an L-system, in two stages. First a
grammar engine rewrites a seed string (the axiom) with a table of
`name=body` rules. Then a turtle reads the rewritten string and draws it.
The repository holds two versions of this pipeline:

* the C++ library `SysL::Tortoise`:
  * `addRule`, `removeRule`, `clearRules` and `generateAxiom` over a `std::map`;
  * in the SysLBuilder build, also the position turtle `computeAxiom`;
* the Blender add-on operator `OP_Render_system` (old/main.py):
  * `parse_rules`, `iterate_axiom` and `iterate` over the module-level `rules` dict and `axioms` list;
  * the direction turtle `render_axiom`, with `last_extrude` and the anchor choice of `extrude_object`;
  * `execute`, which chains them.

Both versions share one rewriting semantics, stated once in `Rewriting`:

* A rule is a left-to-right, non-overlapping replace-all (`ReplaceAll`).
* A pass applies the rules one after another to the same working string (`Pass`), so a later rule sees what an earlier rule inserted.
* `Expand` runs n passes.

Each version's table discipline is modelled over that shared core:

* `RuleTable`, C++: ascending key order, the first body wins, the row is split at the first '='.
* `PyRules`, Python: insertion order, the last body wins, a row must hold exactly one '='.

The stateful code is modelled as classes:

* `Tortoise.Tortoise` has the fields `rules`, `positionStack` and `positions`.
* `RenderSystem.RenderSystem` has the fields `rules` and `axioms`.

Each method is proved equal to a specification function, and the properties are lemmas about those functions.

Modules, in dependency order:

* `Wrappers`: Option.
* `Strings`: `std::string::find`, character counts, and `str.split` with its inverse.
* `Rewriting`: the shared rewriting semantics.
* `RuleTable`: the `std::map` and the `addRule` split.
* `Geometry`: integer vectors, the rotation table and bracket balance.
* `PositionTurtle`: the `computeAxiom` spec.
* `Tortoise`: the C++ class.
* `PyRules`: the dict, `str.replace` and the rule table.
* `AnchorTurtle`: the `render_axiom` spec and the mesh.
* `RenderSystem`: the Python operator.

With the rules `F=FX` then `X=Y`, one pass turns `"F"` into `"FY"`, because each rule is applied in turn to the result of the previous one. The `X` rule rewrites only the `X` that the `F` rule inserted (`Rewriting.Cascade`, `PyRules.CascadeInDictOrder`). In C++ the same holds whatever order the rows were added in, because the map runs `F` before `X` (`Tortoise.CascadeInKeyOrder`).

## Model

| member | source | states |
|---|---|---|
| Strings.Find | SysL/src/systems/tortoise.cpp:27 | `find(name, pos)` gives the least index at or after `pos` where the name occurs, and None (npos) exactly when there is none |
| Strings.FindChar | SysL/src/systems/tortoise.cpp:7 | `find('=')` gives the least index holding '=', and None (npos) exactly when the row has no '=' |
| Strings.Split | old/main.py:191 | `str.split("=")` yields one part more than there are '=' characters, and no part contains '=' |
| Strings.JoinSplit | old/main.py:191 | joining the parts of a split with the separator gives back the row |
| Strings.SplitJoin | old/main.py:191 | splitting a join of separator-free parts gives back the parts |
| Rewriting.ReplaceAllAt | SysL/src/systems/tortoise.cpp:27-30 | from the scan position, the replace-all copies the text up to the first occurrence, emits the body and continues after the replaced name |
| Rewriting.ReplaceAllNoMore | SysL/src/systems/tortoise.cpp:27 | once find reports npos, the rest of the string is final |
| Rewriting.ReplaceStep | SysL/src/systems/tortoise.cpp:27-30 | one replace-and-skip step of the scan preserves "finished prefix + replace-all of the rest" and strictly shrinks the text left to scan, so the loop terminates for a non-empty name |
| Rewriting.EmptyNameNeverAdvances | SysL/src/systems/tortoise.cpp:27-30 | with an empty name, find reports the cursor itself, and after the insertion the text left to scan is unchanged, so the scan never ends |
| Rewriting.ReplaceAllAbsent | SysL/src/systems/tortoise.cpp:27 | a string without an occurrence of the name is left unchanged |
| Rewriting.ReplaceAllSelf | SysL/src/systems/tortoise.cpp:28 | a rule whose body is its own name changes nothing |
| Rewriting.ReplaceAllLength | SysL/src/systems/tortoise.cpp:28-29 | the result length is the input length plus, for every rewritten occurrence, the body length minus the name length |
| Rewriting.InsertedTextNotRescanned | SysL/src/systems/tortoise.cpp:29 | scanning resumes after the inserted body: `a -> aa` turns `"aa"` into `"aaaa"` after exactly two rewrites |
| Rewriting.ExpandZero | SysL/src/systems/tortoise.cpp:23 | zero passes leave the seed unchanged |
| Rewriting.ExpandSucc | SysL/src/systems/tortoise.cpp:23-33 | n+1 passes are one more pass over the result of n passes |
| Rewriting.PassAppend | SysL/src/systems/tortoise.cpp:25-31 | a pass over two runs of rules is the second run applied to the output of the first: later rules see earlier rules' output |
| Rewriting.Cascade | SysL/src/systems/tortoise.cpp:24-32 | F=FX then X=Y turns "F" into "FY" in one pass; in the opposite order the result is "FX" |
| RuleTable.BelowIrreflexive | SysL/include/systems/tortoise.hpp:30 | the map's key order (std::string `<`) is irreflexive |
| RuleTable.BelowTransitive | SysL/include/systems/tortoise.hpp:30 | the key order is transitive |
| RuleTable.BelowTotal | SysL/include/systems/tortoise.hpp:30 | any two different keys are ordered |
| RuleTable.ToMapKeys | SysL/include/systems/tortoise.hpp:30 | a name is in the table exactly when some entry has it |
| RuleTable.Insert | SysL/src/systems/tortoise.cpp:10 | `map::insert` keeps the keys ascending, adds only the new rule, and leaves an existing name's body untouched (the first body wins) |
| RuleTable.Erase | SysL/src/systems/tortoise.cpp:14 | `map::erase` removes exactly that name's entry, keeps the order, and changes nothing when the name is absent |
| RuleTable.SplitsAtFirstDelimiter | SysL/src/systems/tortoise.cpp:7-9 | with a '=' in the row, name is the text before the first '=' and body everything after it, and the body may itself hold '=' |
| RuleTable.NoDelimiterKeepsWholeRow | SysL/src/systems/tortoise.cpp:7-9 | without '=', npos truncated to unsigned int wraps to 0 after +1: name is the whole row, body the row minus its last character |
| RuleTable.ParsePlainRows | SysL/src/systems/tortoise.cpp:7-9 | "X=Y" and "F=FX" parse to the rules X→Y and F→FX |
| RuleTable.EmptyNameFromLeadingDelimiter | SysL/src/systems/tortoise.cpp:7-9 | the row "=X" yields a rule with the empty name |
| Tortoise.Tortoise.constructor | SysL/src/systems/tortoise.cpp:4 | a new tortoise has an empty table, stack and point list |
| Tortoise.Tortoise.AddRule | SysL/src/systems/tortoise.cpp:6-11 | the table becomes the old table plus the parsed rule only if its name was absent; the SysLBuilder copy (SysLBuilder/src/systems/tortoise.cpp:7-12) is the same |
| Tortoise.Tortoise.RemoveRule | SysL/src/systems/tortoise.cpp:13-15 | the table loses exactly the entry for the name and nothing else |
| Tortoise.Tortoise.ClearRules | SysL/src/systems/tortoise.cpp:17-19 | the table becomes empty |
| Tortoise.Tortoise.GenerateAxiom | SysL/src/systems/tortoise.cpp:21-36 | the nested loops return the seed for 0 iterations, and otherwise `Expand` of it over the table in key order; names must be non-empty when a pass runs; the table is not modified |
| Tortoise.Tortoise.ComputeAxiom | SysLBuilder/src/systems/tortoise.cpp:39-79 | `positions` and `positionStack` become those of `Walk` from `origin` with direction (0,0,1), starting from the old stack and old points plus `origin`; requires that no prefix pops more than the stack holds |
| Tortoise.ComputeAxiomCounts | SysLBuilder/src/systems/tortoise.cpp:40-48 | computeAxiom adds 1 + #'F' points, keeps the earlier ones, and leaves the stack #'[' − #']' entries deeper |
| Tortoise.KeyOrderExample | SysL/include/systems/tortoise.hpp:30 | adding "X=Y" then "F=FX" still stores F before X |
| Tortoise.CascadeInKeyOrder | SysL/src/systems/tortoise.cpp:24-32 | a tortoise given "X=Y" then "F=FX" expands "F" to "FY" in one iteration |
| Geometry.TurnOf | SysLBuilder/src/systems/tortoise.cpp:50-67 | exactly `+ - ^ & > <` are rotation operators |
| Geometry.OppositePairs | SysLBuilder/src/systems/tortoise.cpp:50-67 | `+`/`-`, `^`/`&` and `>`/`<` rotate about Z, Y and X respectively, by opposite angles |
| Geometry.NoUnderflowMonotone | SysLBuilder/src/systems/tortoise.cpp:73-75 | a deeper stack never makes a string pop more than it holds |
| Geometry.NoUnderflowAppend | SysLBuilder/src/systems/tortoise.cpp:70-76 | a string safe from depth d splits into a safe prefix and a suffix safe from the depth the prefix reaches |
| PositionTurtle.WalkAppend | SysLBuilder/src/systems/tortoise.cpp:44-78 | walking a + b is walking a and then b |
| PositionTurtle.WalkPoints | SysLBuilder/src/systems/tortoise.cpp:46-48 | one point per 'F' is appended, and earlier points never change |
| PositionTurtle.WalkDepth | SysLBuilder/src/systems/tortoise.cpp:70-76 | the stack ends #'[' − #']' entries deeper |
| PositionTurtle.WalkKeepsBase | SysLBuilder/src/systems/tortoise.cpp:70-76 | stack entries below the deepest point a string pops to are untouched |
| PositionTurtle.BranchRestoresPosition | SysLBuilder/src/systems/tortoise.cpp:70-76 | after a balanced "[b]" the position and the stack are those before the '[' |
| PositionTurtle.BranchKeepsHeading | SysLBuilder/src/systems/tortoise.cpp:50-52 | a branch does not restore the direction: after "[+]" the position is back but the direction stays turned |
| PositionTurtle.TurnsTouchOnlyHeading | SysLBuilder/src/systems/tortoise.cpp:50-69 | a string without 'F', '[' or ']' leaves position, stack and points unchanged |
| PositionTurtle.OthersChangeNothing | SysLBuilder/src/systems/tortoise.cpp:44-78 | the vertical-bar case and every character the switch has no case for change nothing: a string of them leaves the whole pen, the direction included, as it was, and cannot underflow |
| PositionTurtle.BranchExample | SysLBuilder/src/systems/tortoise.cpp:46-76 | "F[F]F" records origin, one step, two steps, and two steps again (the last F resumes at the restored position) |
| PyRules.Put | old/main.py:192 | `rules[name] = exp` gives the name the new body; a new name goes last and an existing name keeps its place |
| PyRules.Items | old/main.py:201-202 | the rules are visited in insertion order (the order `keys` records) with their current bodies |
| PyRules.WellFormedIffOneDelimiter | old/main.py:191 | an enabled row unpacks into name and body exactly when it holds exactly one '=' |
| PyRules.RowRoundTrip | old/main.py:191 | a row built as name + "=" + body from '='-free parts splits back into them |
| PyRules.FirstMalformed | old/main.py:188-191 | the first enabled row that does not unpack, where ValueError stops parsing; every row before it unpacks |
| PyRules.TableLastWins | old/main.py:192 | the body stored for a name is that of the last enabled row with that name |
| PyRules.TableKeys | old/main.py:188-192 | a name is in the dict exactly when some enabled row has it; disabled rows are skipped |
| PyRules.TableKeepsOrder | old/main.py:192 | later rows never reorder the names already stored |
| PyRules.InsertEverywhere | old/main.py:202 | `s.replace("", b)` has length |s| + (|s|+1)·|b| |
| PyRules.Slot | old/main.py:202 | block i of `s.replace("", b)` starts at i·(|b|+1) |
| PyRules.InsertEverywhereFills | old/main.py:202 | each of the |s|+1 blocks at `Slot(i, |b|)` of `s.replace("", b)` is `b` |
| PyRules.InsertEverywhereKeeps | old/main.py:202 | the character right after block i is s[i], so the characters of `s` keep their order between the copies of `b` |
| PyRules.PyPassAgrees | old/main.py:201-202 | with non-empty names, one pass of `str.replace` over the dict is the shared `Pass` |
| PyRules.PyExpandAgrees | old/main.py:200-202 | with non-empty names, `iterate_axiom`'s expansion is the shared `Expand` |
| PyRules.PyExpandNonPositive | old/main.py:200 | `range(iterations)` is empty for iterations <= 0, so the axiom is unchanged |
| PyRules.TwoRows | old/main.py:186-192 | two enabled rows with different names give a dict whose items are those two rules, in row order |
| PyRules.PassOfTwoRows | old/main.py:186-202 | for two enabled rows with different non-empty names, one pass over the dict built from them is the shared pass over their rules in row order |
| PyRules.CascadeInDictOrder | old/main.py:200-202 | rows F=FX, X=Y expand "F" to "FY" in one pass; rows X=Y, F=FX give "FX" |
| PyRules.EmptyNameExample | old/main.py:202 | an empty name (row "=X") inserts the body around every character: "ab" becomes "XaXbX" |
| AnchorTurtle.Nearest | old/main.py:301 | `min` by distance picks a vertex at least distance, and the first such one in vertex order |
| AnchorTurtle.NearestIs | old/main.py:301 | the first vertex at least distance is the one picked |
| AnchorTurtle.LastExtrude | old/main.py:274-279 | the last vertex's position, and None for a mesh without vertices |
| AnchorTurtle.Anchor | old/main.py:300-304 | with a source, extrusion starts at the first vertex nearest it; without one, at the last vertex |
| AnchorTurtle.ExtrudeObject | old/main.py:289-308 | appends one vertex at anchor + vector, linked to the anchor, keeps the others, and keeps every edge pointing to an earlier vertex; an empty mesh is left as is |
| AnchorTurtle.RunFailsOnUnderflow | old/main.py:250-253 | reading raises IndexError exactly when some prefix pops more than was pushed, and then at the first ']' that finds `state_stack` empty: the text before it never underflows and leaves the stack empty |
| AnchorTurtle.RunPoints | old/main.py:235-237 | the mesh grows by one vertex per 'F' read before any error, the old vertices stay, and edges keep pointing backwards |
| AnchorTurtle.RunDepth | old/main.py:250-253 | a run that does not fail leaves #'[' − #']' entries on the state stack |
| AnchorTurtle.StickySource | old/main.py:252-253 | without a later ']' the anchor is never cleared, so it anchors every later 'F' |
| AnchorTurtle.TurnsTouchOnlyVec | old/main.py:238-249 | a rest made only of rotation and other characters, with no 'F', '[' or ']', cannot fail and leaves the mesh, the state stack and the anchor unchanged |
| AnchorTurtle.OthersChangeNothing | old/main.py:235-253 | a character matching none of the loop's tests is a no-op: a rest of such characters leaves the whole turtle, `vec` included, as it was, and does not fail |
| AnchorTurtle.RunMid | old/main.py:235-253 | the loop reads characters one after the other: reading to offset k and then on from k is reading the whole, when the first part does not fail |
| AnchorTurtle.RunKeepsBase | old/main.py:250-253 | a rest that is safe from depth k cannot fail and keeps every saved position below the top k |
| AnchorTurtle.BranchSetsSource | old/main.py:250-253 | LIFO: after "[" + b + "]" with b balanced and safe, the run does not fail, the state stack is as before, and the anchor is the last vertex's position at the '[' |
| AnchorTurtle.BranchExample | old/main.py:235-253 | "F[F]FF" extrudes vertex 1 from 0 and vertex 2 from 1; after ']' both later F extrude from vertex 1, the one nearest the saved position |
| AnchorTurtle.UnderflowExample | old/main.py:252-253 | "]F" fails at offset 0 with only the starting point drawn |
| RenderSystem.LastEnabled | old/main.py:210-214 | the last enabled axiom row, and None exactly when no row is enabled |
| RenderSystem.RendersWithFirstRow | old/main.py:335-343 | the single surviving expansion is drawn with the first axiom row's parameters, and only if that row is enabled; an enabled first row with an empty name ends the run with `UnnamedAxiom(0)` and no mesh |
| RenderSystem.RenderSystem.constructor | old/main.py:7-8 | the dict and the axiom list start empty |
| RenderSystem.RenderSystem.ParseRules | old/main.py:186-192 | the dict becomes the table of the rows before the first malformed one, and that row's index is returned as the ValueError |
| RenderSystem.RenderSystem.IterateAxiom | old/main.py:198-204 | `axioms` becomes the single expansion of the axiom over the dict's items |
| RenderSystem.RenderSystem.Iterate | old/main.py:210-214 | `axioms` holds only the last enabled row's expansion, or what it held before when no row is enabled |
| RenderSystem.RenderSystem.RenderAxiom | old/main.py:220-253 | a row with an empty name fails (AttributeError: an axiom row has no `index`) before anything is drawn, exactly when the name is empty; otherwise the character loop yields exactly `Render`: start at (step,0,0) with no anchor, one extrusion per 'F', and IndexError at the first ']' with an empty stack |
| RenderSystem.RenderSystem.Execute | old/main.py:326-343 | a malformed rule row aborts before any expansion; otherwise `axioms` holds the expansion and the meshes and error are those of rendering it paired with the axiom rows by index, up to the first missing row (`NoSuchAxiom`), unnamed enabled row (`UnnamedAxiom`) or branch-stack underflow (`EmptyBranchStack`) |

## Left out

- Floating point and rotation numerics: coordinates are integer triples. The rotation by `glm::rotate` / `Matrix.Rotation` is a parameter `rotate(axis, angle, v)`; only which axis and which sign each operator uses is stated. The degrees-to-radians conversion is part of that parameter.
- Blender mesh plumbing: object creation and linking, edit-mode switching, vertex selection state, `extrude_vertices_move` and view-layer updates. The mesh is a sequence of vertices, and an extrusion appends one vertex linked to its anchor.
- AnchorTurtle.ExtrudeObject: extrudes from exactly one vertex, the anchor. In Blender, the vertex made by the previous extrusion stays selected, and `extrude_object` only adds the anchor to the selection. So the real operator can extrude from both vertices once an anchor is set. Edit-mode selection is host state and is not modelled.
- Strings.Find, Strings.FindChar, RuleTable.ParseRow, RuleTable.Below: on the C++ side a Dafny `char` stands for one byte of a `std::string`. Under that reading `find`, `substr` and `operator<` (which compares with unsigned `char_traits<char>::lt`) are modelled exactly, but a row holding multi-byte UTF-8 text is read byte by byte. "Minus its last character" in `RuleTable.NoDelimiterKeepsWholeRow` means minus its last byte. Python's `str` works on code points, and there `char` stands for one code point.
- RenderSystem.RenderAxiom: the created point is placed at the row's position, but `create_point` also sets the object location to that position. That world offset is not modelled.
- RenderSystem.RenderAxiom: the object's name itself, the search by name in `last_extrude`/`extrude_object`, and the "Invalid object." early return are not modelled. The mesh is always the one just created. An empty name is modelled: the fallback `f"axiom_{axiom.index}"` reads a field that `AxiomProperty` (old/main.py:48-76) does not declare, so the row fails with `UnnamedAxiom` before any point is created. Rows added from the UI start with an empty name (old/main.py:144-146).
- The skin modifier (`add_skin_modifier`, `options.skinned`) is not modelled: it is a foreign call after drawing.
- Blender UI, property groups, panels and registration (old/main.py outside the operator, main.py) are host plumbing and are not modelled.
- `generateTrunk` is not modelled: it is float trigonometry.
- The C ABI and ctypes bridge (SysL/src/SysL.cpp, SysL.py, testDll.py) are thin wrappers and are not modelled.
- Console output (`std::cout`, `print`) is not modelled.
- SysLBuilder's own header is not part of this model. Its `positions` member is taken to be the vector that `computeAxiom` appends to.
- Tortoise.Tortoise.GenerateAxiom: requires non-empty rule names whenever a pass runs. The C++ scan never terminates on an empty name (`Rewriting.EmptyNameNeverAdvances`), and a row such as "=X" creates one (`RuleTable.EmptyNameFromLeadingDelimiter`).
- Tortoise.Tortoise.ComputeAxiom: requires that no ']' finds the stack empty. In C++ that case reads the top of an empty `std::stack`, which is undefined behaviour and has no meaningful result.
- RuleTable.ParseRow: rows of 2^32 characters or more follow the same unsigned-int wrap arithmetic. The lemmas about the split are stated only for shorter rows.
- Tortoise.Tortoise.GenerateAxiom: `iterations` is a natural number standing for `unsigned int`. Callers cannot pass a negative count through the C++ signature.
- RenderSystem.RenderSystem.Execute: exceptions are returned as values (`RunError`), not propagated. Blender's own handling of an operator that raises is not modelled.
