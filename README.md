# Hack assembler, modelled in Dafny

This project models the assembler of the Nand to Tetris course
(`projects/06/Assembler.py`). The assembler translates Hack assembly text
into 16-character strings of `0` and `1`, one per instruction. The model
proves what those words are.

It works in two passes:

- **First pass.** Each label line `(NAME)` binds `NAME` to the number of
  non-label lines before it.
- **Label deletion.** The label lines are removed from the instruction list.
- **Second pass.** Each remaining line is encoded.
  - An A-instruction `@x` gives `0` followed by the address in 15 bits. The
    address is `x` itself when it is decimal. Otherwise it is the address of
    the symbol `x`, and a symbol seen for the first time is bound to the next
    free address, counting from 16.
  - A C-instruction `dest=comp;jump` is split into its three fields. It gives
    `111` followed by the codes of the three fields, looked up in three fixed
    tables.

The project has one Dafny module per part of the program:

| file | module | what it holds |
|---|---|---|
| `options.dfy` | `Options` | `Option`, used where Python raises `KeyError` or `IndexError` |
| `text.dfy` | `Text` | the `str` operations the program calls: `split`, `strip`, `startswith`, `isdecimal`, `int`, `s[1:-1]` |
| `ordered_table.dfy` | `OrderedTables` | a Python `dict` as an ordered association list: lookup, assignment, `keys()`, `values()` |
| `binary.dfy` | `Binary` | `format(n, '015b')` and the value of a bit string |
| `parser.dfy` | `AsmParser` | `parse_new_instruction` as a function from the instruction to its three fields |
| `code.dfy` | `Code` | the three tables of `Asm2CodeTranslator` and the lookups into them |
| `assembler.dfy` | `HackAssembler` | see below |
| `assembler_proofs.dfy` | `AssemblerProofs` | reference definitions of what the two passes compute, and the proofs that they do |
| `assembler_examples.dfy` | `AssemblerExamples` | instructions on which the way the parser splits goes wrong, and two small programs taken through `assemble` |

`assembler.dfy` holds:

- the `Assembler` class: its `asm_file` and symbol-table fields and its
  methods, with the loops of `__get_instruction_lists` and `assemble`;
- the functions that specify those methods.

### How the parser behaves

The parser finds the jump field by splitting the whole instruction at the
text of `comp`. It takes the piece after the first occurrence. When `comp`
occurs again in the instruction, the jump field comes out wrong:

- `D=D`: the piece after the first `D` is `=`, which is not a jump mnemonic.
  `AssemblerExamples.ParseSelfAssignment` shows this.
- `M;JMP`: the piece between the two `M`s is `;J`, so the jump is `J`.
  `AssemblerExamples.ParseCompInJump` shows this.

Either instruction then fails the jump lookup (`SelfAssignmentRejected`,
`CompInJumpRejected`), so `assemble` raises `KeyError`. The model reproduces
this behaviour rather than correcting it.

`AsmParser.ParseRender` states when the split is right: when `comp` occurs
in the instruction only after `dest=`, and no field holds the characters the
split uses.

The end-to-end statement is `AssemblerProofs.AssembleEncodes`, for a program
whose label names are fresh and distinct:

- the words `assemble` produces are those of every non-label line encoded
  against one table;
- that table is the predefined symbols, then the labels, then the variables
  from address 16 on in order of first use;
- a word is missing exactly when some encoding fails;
- on success, that table is the symbol table `assemble` leaves.

## Model

| member | source | states |
|---|---|---|
| `Text.Strip` | projects/06/Assembler.py:157 | `line.strip()` is a slice of the line that neither starts nor ends with whitespace |
| `Text.StripLeftDropsSpace` | projects/06/Assembler.py:157 | the characters `strip` drops at the front are all whitespace |
| `Text.StripRightDropsSpace` | projects/06/Assembler.py:157 | the characters `strip` drops at the back are all whitespace |
| `Text.StripUnique` | projects/06/Assembler.py:157 | `line.strip()` is the one slice with only whitespace around it that neither starts nor ends with whitespace |
| `Text.StripAfterSpaces` | projects/06/Assembler.py:157 | leading whitespace does not change what `strip` returns |
| `Text.StripIdempotent` | projects/06/Assembler.py:157 | stripping twice is stripping once |
| `Text.Split` | projects/06/Assembler.py:153 | `s.split(sep)` has one more piece than `sep` has non-overlapping occurrences |
| `Text.SplitPieces` | projects/06/Assembler.py:153 | no piece of `s.split(sep)` contains `sep`, and `sep.join(s.split(sep))` is `s` again |
| `Text.Cuts` | projects/06/Assembler.py:159 | the places `split` cuts are occurrences of the separator, left to right, not overlapping |
| `Text.CutsLeftmost` | projects/06/Assembler.py:159 | the first cut is the leftmost occurrence: none lies before it |
| `Text.CutsBetween` | projects/06/Assembler.py:153 | no occurrence starts between the end of one cut and the next cut |
| `Text.CutsAfterLast` | projects/06/Assembler.py:29 | no occurrence starts after the end of the last cut |
| `Text.SplitFirst` | projects/06/Assembler.py:159 | `s.split(sep)[0]` is the text before the first occurrence of `sep`, or all of `s` when there is none |
| `Text.SplitLast` | projects/06/Assembler.py:29 | `s.split(sep)[-1]` is the text after the last occurrence of `sep`, or all of `s` when there is none |
| `Text.SplitSecond` | projects/06/Assembler.py:30 | `s.split(sep)[1]` runs from the end of the first occurrence to the next occurrence, or to the end |
| `Text.Inner` | projects/06/Assembler.py:177 | `s[1:-1]` is `s` without its first and last characters, empty when `s` is shorter than two |
| `Text.DecimalValue` | projects/06/Assembler.py:191-192 | `int(s)` of an `isdecimal` string of `n` digits is below 10^n |
| `Text.DecimalLeadingZero` | projects/06/Assembler.py:191-192 | a leading zero does not change what `int` reads |
| `OrderedTables.Keys` | projects/06/Assembler.py:180 | `d.keys()` lists the key of every entry, in table order |
| `OrderedTables.Values` | projects/06/Assembler.py:180 | `d.values()` lists the value of every entry, in table order |
| `OrderedTables.Lookup` | projects/06/Assembler.py:198 | `d[key]` fails exactly when the key is absent, and otherwise reads a value bound to it |
| `OrderedTables.Bind` | projects/06/Assembler.py:196 | `d[key] = value` grows the table by one entry exactly when the key is new, and moves no key |
| `OrderedTables.BindLookup` | projects/06/Assembler.py:196-198 | after `d[key] = value`, `d[key]` is `value` and every other key reads as before |
| `OrderedTables.BindOrder` | projects/06/Assembler.py:177 | rebinding a key keeps the key order; binding a new key appends it at the end |
| `OrderedTables.LookupAppend` | projects/06/Assembler.py:194-198 | in a table extended at the end, old keys keep their values and new keys read from the extension |
| `Binary.Format` | projects/06/Assembler.py:199 | `format(n, '015b')` is a bit string denoting `n`, at least 15 wide, exactly 15 wide below 2^15 |
| `AsmParser.Parse` | projects/06/Assembler.py:20-32 | an A-instruction sets `dest` to `A` and nothing else; otherwise `comp` holds no `=` or `;`, `jump` is empty with `comp`, and `dest` is the text before the first `=` |
| `AsmParser.DestField` | projects/06/Assembler.py:28 | `dest` is empty without `=`, and otherwise the text before the first `=` |
| `AsmParser.CompField` | projects/06/Assembler.py:29 | `comp` holds neither `=` nor `;`, and when it is not empty it occurs in the instruction |
| `AsmParser.JumpField` | projects/06/Assembler.py:30-32 | `jump` is empty when `comp` is empty |
| `AsmParser.CompFieldSpec` | projects/06/Assembler.py:29 | `comp` is the text after the last `=` up to the first `;` after it |
| `AsmParser.JumpFieldSpec` | projects/06/Assembler.py:30-32 | `jump` is the text between the first and second occurrences of `comp`, less one leading `;` |
| `AsmParser.ParseRender` | projects/06/Assembler.py:20-41 | parsing `dest=comp;jump` gives back the three fields when `comp` is not empty, no field holds `=`, `comp` holds no `;`, the text does not start with `@`, and `comp` occurs in it only after `dest=` |
| `AsmParser.RenderDest` | projects/06/Assembler.py:28 | the `dest` of the rendered instruction is the `dest` it was rendered from |
| `AsmParser.RenderComp` | projects/06/Assembler.py:29 | the `comp` of the rendered instruction is the `comp` it was rendered from |
| `AsmParser.RenderJump` | projects/06/Assembler.py:30-32 | the `jump` of the rendered instruction is the `jump` it was rendered from |
| `AssemblerExamples.ParseSelfAssignment` | projects/06/Assembler.py:28-32 | `x=x` parses to dest `x`, comp `x` and jump `=` |
| `AssemblerExamples.ParseCompInJump` | projects/06/Assembler.py:29-32 | `c;j1 c j2` parses to comp `c` and jump `j1` |
| `AssemblerExamples.SelfAssignmentRejected` | projects/06/Assembler.py:202-205 | `D=D`, `A=A` and `M=M` produce no word |
| `AssemblerExamples.CompInJumpRejected` | projects/06/Assembler.py:202-205 | `M;JMP` and every `c;JcX` produce no word |
| `AssemblerExamples.CWordAt` | projects/06/Assembler.py:202-206 | a C-instruction whose mnemonics stand at given table entries gets `111` and those entries' codes |
| `AssemblerExamples.Pass2Words` | projects/06/Assembler.py:184-207 | a second pass over instructions that each translate without binding a symbol appends their words in order |
| `AssemblerExamples.Pass1Plain` | projects/06/Assembler.py:172-178 | lines that are not labels leave the first pass where the earlier lines left it |
| `AssemblerExamples.AddProgram` | projects/06/Assembler.py:184-207 | `@2`, `D=A`, `@3`, `D=D+A`, `@0`, `M=D` assemble to the six expected words, leaving the predefined table |
| `AssemblerExamples.LoopProgram` | projects/06/Assembler.py:171-207 | `(LOOP)`, `@LOOP`, `0;JMP` bind `LOOP` to 0, drop the label line, and assemble to `0000000000000000` and `1110101010000111` |
| `Code.Comp` | projects/06/Assembler.py:97-98 | `comp` fails exactly outside the table; its code is seven bits, the first `1` exactly when the mnemonic reads M |
| `Code.Dest` | projects/06/Assembler.py:100-101 | `dest` fails exactly outside the table; its code is three bits marking A, D and M |
| `Code.Jump` | projects/06/Assembler.py:103-104 | `jump` fails exactly outside the table; its code is three bits |
| `Code.CompTableShape` | projects/06/Assembler.py:46-75 | the comp table has 28 seven-bit codes whose first bit marks the M mnemonics |
| `Code.CompDistinct` | projects/06/Assembler.py:46-75 | the 28 comp mnemonics are distinct, and so are their codes |
| `Code.CompInjective` | projects/06/Assembler.py:97-98 | no two comp mnemonics share a code |
| `Code.DestTableShape` | projects/06/Assembler.py:76-85 | the dest table has 8 distinct mnemonics with distinct three-bit codes marking A, D and M |
| `Code.DestOnto` | projects/06/Assembler.py:76-85 | every three-bit string is the dest code of the mnemonic naming the registers it marks |
| `Code.DestInjective` | projects/06/Assembler.py:100-101 | no two dest mnemonics share a code |
| `Code.JumpTableShape` | projects/06/Assembler.py:86-95 | the jump table has 8 distinct mnemonics with distinct three-bit codes |
| `Code.JumpOnto` | projects/06/Assembler.py:86-95 | every three-bit string is the code of some jump mnemonic, so all eight codes are used |
| `Code.JumpInjective` | projects/06/Assembler.py:103-104 | no two jump mnemonics share a code |
| `Code.JumpBitsMeanConditions` | projects/06/Assembler.py:86-95 | a jump code's bits select negative, zero and positive outputs, as its mnemonic's condition does |
| `HackAssembler.CleanLine` | projects/06/Assembler.py:157-159 | a cleaned line holds no `//` and neither starts nor ends with whitespace |
| `HackAssembler.CleanLineCode` | projects/06/Assembler.py:157-159 | a cleaned line is the stripped text before the first `//`, or the whole line stripped |
| `HackAssembler.CleanLines` | projects/06/Assembler.py:152-163 | cleaning never yields more instructions than lines |
| `HackAssembler.Pass1` | projects/06/Assembler.py:172-178 | the first pass moves no key of the table and adds at most one entry per line |
| `HackAssembler.DeleteAt` | projects/06/Assembler.py:181 | `del instructions[i]` succeeds exactly when `i` is an index |
| `HackAssembler.DeleteAll` | projects/06/Assembler.py:180-181 | when every deletion succeeds, one line goes per value and every line left was there before |
| `HackAssembler.AWord` | projects/06/Assembler.py:199 | an A-word is `0` and a bit string denoting the address, 16 wide for addresses below 2^15 |
| `HackAssembler.CWord` | projects/06/Assembler.py:202-206 | a C-word exists exactly when all three lookups succeed, and is then `111` and 13 more bits |
| `HackAssembler.Address` | projects/06/Assembler.py:188-199 | an A-instruction always gives a word starting with `0`; the table moves no key, and `next_free_memory` advances exactly when a symbol is added |
| `HackAssembler.Translate` | projects/06/Assembler.py:187-206 | A-words start with `0` and never fail; C-instructions leave the table and `next_free_memory` alone, and their words start with `111` |
| `HackAssembler.Pass2Step` | projects/06/Assembler.py:186-207 | a successful step keeps the earlier words and appends a bit string of 16 or more characters |
| `HackAssembler.Pass2` | projects/06/Assembler.py:184-207 | on success the earlier words are followed by one bit string of 16 or more characters per instruction; `next_free_memory` advances by the number of symbols added, and no key moves |
| `HackAssembler.AssembleInstructions` | projects/06/Assembler.py:171-207 | `assemble` on cleaned lines moves no key of its table and gives at most one word per line, each a bit string of 16 or more characters |
| `HackAssembler.AssembleContent` | projects/06/Assembler.py:165-207 | `assemble` on a text moves no key of its table and gives at most one word per line of the text, each a bit string of 16 or more characters |
| `HackAssembler.Assembler.constructor` | projects/06/Assembler.py:110-116 | a new assembler has no file and the predefined symbol table |
| `HackAssembler.Assembler.SetAsmFile` | projects/06/Assembler.py:118-120 | setting the file resets the symbol table to the predefined symbols |
| `HackAssembler.Assembler.InitializeSymbolTable` | projects/06/Assembler.py:125-150 | the symbol table becomes the 23 predefined bindings, in order |
| `HackAssembler.Assembler.GetInstructionLists` | projects/06/Assembler.py:152-163 | the loop returns the cleaned, non-empty lines of the text split at newlines |
| `HackAssembler.Assembler.Assemble` | projects/06/Assembler.py:165-207 | `assemble` leaves the symbol table and words that `AssembleContent` gives from the old table |
| `HackAssembler.Assembler.FirstPass` | projects/06/Assembler.py:172-178 | the first-pass loop leaves the table `Pass1` gives from the old table |
| `HackAssembler.Assembler.SecondPass` | projects/06/Assembler.py:184-207 | the second-pass loop leaves the table and words `Pass2` gives, stopping at the first failed lookup |
| `HackAssembler.Assembler.TranslateInstruction` | projects/06/Assembler.py:187-206 | one loop body leaves the word, table and next free address that `Translate` gives |
| `HackAssembler.DeleteLabels` | projects/06/Assembler.py:180-181 | the deletion loop gives what `DeleteAll` gives, failing where `del` raises |
| `HackAssembler.DeleteAllStuck` | projects/06/Assembler.py:180-181 | once one deletion fails, the whole deletion loop fails |
| `HackAssembler.Pass2Stuck` | projects/06/Assembler.py:202-205 | once a lookup fails, the rest of the second pass changes nothing |
| `AssemblerProofs.PredefinedSymbolsFacts` | projects/06/Assembler.py:108-150 | the 23 predefined names are distinct, and each reads the address listed with it |
| `AssemblerProofs.CleanLinesFilter` | projects/06/Assembler.py:155-161 | the cleaning loop keeps exactly the non-empty cleaned lines |
| `AssemblerProofs.PositionsRead` | projects/06/Assembler.py:160-161 | filtering keeps, at increasing positions, exactly the non-empty entries |
| `AssemblerProofs.CleanLinesKeep` | projects/06/Assembler.py:152-163 | the `k`-th instruction is the cleaned `k`-th kept line, in order, and every other line cleans to nothing |
| `AssemblerProofs.NonLabelsAppend` | projects/06/Assembler.py:173-178 | the non-label lines of a concatenation are those of its parts |
| `AssemblerProofs.Pass1Binds` | projects/06/Assembler.py:172-178 | a label is bound to the number of non-label lines before its last declaration |
| `AssemblerProofs.Pass1KeepsOthers` | projects/06/Assembler.py:172-178 | a name no label declares keeps its value through the first pass |
| `AssemblerProofs.LabelBindings` | projects/06/Assembler.py:172-178 | there are at most as many label bindings as lines |
| `AssemblerProofs.LabelBindingsKeys` | projects/06/Assembler.py:175-177 | every name the label bindings bind is the name of a label line |
| `AssemblerProofs.Pass1Fresh` | projects/06/Assembler.py:172-178 | with fresh, distinct label names, the first pass appends exactly the label bindings |
| `AssemblerProofs.DeleteLabelBindings` | projects/06/Assembler.py:180-181 | deleting at the recorded label positions, in order, removes exactly the label lines |
| `AssemblerProofs.DeleteLastLabel` | projects/06/Assembler.py:180-181 | each recorded position is where its label stands once the earlier labels are gone |
| `AssemblerProofs.DeleteAllLast` | projects/06/Assembler.py:180-181 | the last deletion acts on what the earlier deletions left |
| `AssemblerProofs.FirstPassAndDeletion` | projects/06/Assembler.py:172-181 | with fresh labels, the first pass and the deletion leave the label bindings and the non-label lines |
| `AssemblerProofs.LabelTarget` | projects/06/Assembler.py:172-181 | a label's value is the index of the first non-label line after it in the list left by the deletion |
| `AssemblerProofs.AllLabels` | projects/06/Assembler.py:175-178 | a run of label lines contributes no non-label line |
| `AssemblerProofs.NewVariables` | projects/06/Assembler.py:194-197 | there are at most as many variables as instructions |
| `AssemblerProofs.NewVariablesDistinct` | projects/06/Assembler.py:194-197 | the variables are distinct non-decimal names, none of them in the starting table |
| `AssemblerProofs.NewVariablesUsed` | projects/06/Assembler.py:188-197 | a name is a variable exactly when it is non-decimal, unbound and the operand of some A-instruction |
| `AssemblerProofs.AllocateKeys` | projects/06/Assembler.py:194-197 | the allocated names are the variables, in order |
| `AssemblerProofs.AllocateLookup` | projects/06/Assembler.py:194-198 | with distinct names, the `j`-th allocated name reads address `next + j` |
| `AssemblerProofs.AllocateDistinct` | projects/06/Assembler.py:194-197 | distinct variables are bound under distinct keys |
| `AssemblerProofs.FinalTableLookup` | projects/06/Assembler.py:194-198 | in the final table the starting symbols keep their values and the `j`-th variable reads `next + j` |
| `AssemblerProofs.Encode` | projects/06/Assembler.py:188-206 | A-words start with `0`, C-words with `111`; an A-instruction fails exactly for a non-decimal operand the table lacks |
| `AssemblerProofs.Encodings` | projects/06/Assembler.py:186-207 | one encoding per instruction |
| `AssemblerProofs.EncodeAllWords` | projects/06/Assembler.py:186-207 | encoding succeeds exactly when every instruction encodes, and then gives one word per instruction in order |
| `AssemblerProofs.EncodeAllLast` | projects/06/Assembler.py:207 | encoding one more instruction appends its word |
| `AssemblerProofs.TranslateFresh` | projects/06/Assembler.py:194-199 | a new symbol is bound to the next free address and reads that address |
| `AssemblerProofs.TranslateKnown` | projects/06/Assembler.py:188-206 | any other instruction leaves the table alone and gives its encoding against it |
| `AssemblerProofs.TranslateStep` | projects/06/Assembler.py:186-206 | a step from the final table of the earlier lines gives the encoding against the next final table |
| `AssemblerProofs.FinalTableLast` | projects/06/Assembler.py:194-197 | the final table of a longer program extends the final table of its prefix |
| `AssemblerProofs.StepAppends` | projects/06/Assembler.py:207 | a step whose translation is known appends that word, or stops |
| `AssemblerProofs.Pass2StepFinal` | projects/06/Assembler.py:186-207 | a step from the final table of the earlier lines appends the encoding against the next final table |
| `AssemblerProofs.Pass2Encodes` | projects/06/Assembler.py:184-207 | the second pass gives the encodings of every instruction against one final table, ending at it with `next` advanced by the number of variables |
| `AssemblerProofs.AssembleLines` | projects/06/Assembler.py:169-207 | with fresh labels, the three stages of `assemble` compose into encoding against one final table |
| `AssemblerProofs.AssembleEncodes` | projects/06/Assembler.py:165-207 | `assemble` from the predefined symbols gives one word per non-label line, each its encoding against the final table, which it leaves behind |

## Left out

- `projects/07/VMTranslator.py`, `main` and the command line
  (`Assembler.py:214-253`) are not part of this model.
- File input is a parameter: `Assemble` and `AssembleContent` take the text
  of the `.asm` file, not its name (`Assembler.py:166-168`).
- File output is not modelled: the output path, `'\n'.join` and the write
  (`Assembler.py:209-212`). `Assemble` returns the list of words that would
  be written, or `None` where Python raises first.
- `set_output_dir` (`Assembler.py:122-123`) only stores a path used by the
  left-out output step, so the model has no `output_dir` field.
- `Text.IsSpace`: `strip` and `isdecimal` are modelled for ASCII only. Python
  also treats non-ASCII whitespace and digits this way.
- `AsmParser.Parse`: the `AsmParser` object is modelled as a function. It
  keeps only the fields of the last instruction it parsed, and `__clear`
  resets all three before each parse, so no state carries over between
  instructions. The same holds for the `__parser` and `__translator` fields
  of `Assembler`, which are omitted.
- `HackAssembler.Assembler.Assemble`: its loops are split into `FirstPass`,
  `DeleteLabels` and `SecondPass`, with the second loop's body in
  `TranslateInstruction`. Python raises in the middle of a loop; the model
  returns `None` and keeps the symbol table as it stood at that point.
- `AssemblerProofs.AssembleEncodes`: it requires label names that are
  distinct and not predefined. The source accepts any labels:
  - A repeated label is rebound in place, so the deletion offsets no longer
    match the label lines.
  - A label named like a predefined symbol (say `(SP)`) overwrites that
    entry, and no offset is recorded for it.
  `Pass1Binds`, `Pass1KeepsOthers`, `DeleteAllStuck` and the executable
  methods cover those programs; the reference statement does not.
- `HackAssembler.AWord`: `format(n, '015b')` of an address of 2^15 or more
  gives a word longer than 16 characters. The model reproduces this, and
  states the 16-character length only below 2^15.
