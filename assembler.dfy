/**
  `Assembler`: the two-pass translation of Hack assembly into 16-character
  machine words. The symbol table is the object's state; `assemble` reads
  the text of the `.asm` file (given here as `content`), binds labels in a
  first pass, deletes the label lines, and encodes every remaining line in
  a second pass that allocates variables from address 16 upward.
*/
module HackAssembler {
  import opened Options
  import opened Text
  import opened OrderedTables
  import opened Binary
  import opened AsmParser
  import opened Code

  /** `__NUMBER_OF_PREDEFINED_SYMBOLS` */
  const NumberOfPredefinedSymbols: nat := 23

  /** The bindings `initialize_symbol_table` installs, in its order. */
  const PredefinedSymbols: Table<nat> := [
    ("R0", 0), ("R1", 1), ("R2", 2), ("R3", 3), ("R4", 4), ("R5", 5), ("R6", 6),
    ("R7", 7), ("R8", 8), ("R9", 9), ("R10", 10), ("R11", 11), ("R12", 12),
    ("R13", 13), ("R14", 14), ("R15", 15), ("SCREEN", 16384), ("KBD", 24576),
    ("SP", 0), ("LCL", 1), ("ARG", 2), ("THIS", 3), ("THAT", 4)
  ]

  // ---------------------------------------------------------------------
  // Cleaning the text into instruction lines

  /** One line of the file: stripped, cut at the first `//`, stripped again. */
  function CleanLine(line: string): (r: string)
    ensures Absent(r, "//")
    ensures r != [] ==> !IsSpace(r[0]) && !IsSpace(r[|r| - 1])
  {
    var stripped := Strip(line);
    var code := Split(stripped, "//")[0];
    SplitFirst(stripped, "//");
    var r := Strip(code);
    AbsentInSlice(code, "//", |code| - |StripLeft(code)|, |code| - |StripLeft(code)| + |r|);
    r
  }

  /** What survives of a line is its text before the first `//` (all of it
      when there is none), stripped: the code without the comment. */
  lemma CleanLineCode(line: string, c: nat)
    requires c <= |line|
    requires c == |line| || OccursAt(line, "//", c)
    requires forall i :: 0 <= i < c ==> !OccursAt(line, "//", i)
    ensures CleanLine(line) == Strip(line[..c])
  {
    if c < |line| {
      CodeBeforeComment(line, c);
      StripBeforeComment(line, c);
    } else {
      CodeWithoutComment(line);
      StripIdempotent(line);
      assert line[..c] == line;
    }
  }

  /** With the first `//` at `c`, the part of the stripped line before its
      first `//` runs from where `strip` starts to `c`. */
  lemma CodeBeforeComment(line: string, c: nat)
    requires OccursAt(line, "//", c)
    requires forall i :: 0 <= i < c ==> !OccursAt(line, "//", i)
    ensures var a := |line| - |StripLeft(line)|;
      a <= c && Split(Strip(line), "//")[0] == line[a..c]
  {
    var stripped := Strip(line);
    var a := |line| - |StripLeft(line)|;
    var e := a + |stripped|;
    assert stripped == line[a..e];
    CommentInside(line, c);
    SplitFirstInSlice(line, "//", a, e, c);
  }

  /** The whitespace `strip` drops at the front does not matter to the code
      before the comment. */
  lemma StripBeforeComment(line: string, c: nat)
    requires |line| - |StripLeft(line)| <= c <= |line|
    ensures var a := |line| - |StripLeft(line)|; Strip(line[..c]) == Strip(line[a..c])
  {
    var a := |line| - |StripLeft(line)|;
    forall i | 0 <= i < a
      ensures IsSpace(line[i])
    {
      StripLeftDropsSpace(line, i);
    }
    StripAfterLeading(line, a, c);
  }

  /** Without any `//`, the stripped line is its own first piece. */
  lemma CodeWithoutComment(line: string)
    requires forall i :: 0 <= i < |line| ==> !OccursAt(line, "//", i)
    ensures Split(Strip(line), "//")[0] == Strip(line)
  {
    var stripped := Strip(line);
    var a := |line| - |StripLeft(line)|;
    var e := a + |stripped|;
    assert stripped == line[a..e];
    forall i | 0 <= i <= |stripped|
      ensures !OccursAt(stripped, "//", i)
    {
      OccursInSlice(line, "//", a, e, i);
    }
    SplitFirst(stripped, "//");
  }

  /** A `//` is not whitespace, so `strip` keeps it. */
  lemma CommentInside(line: string, c: nat)
    requires OccursAt(line, "//", c)
    ensures var a := |line| - |StripLeft(line)|; a <= c && c + 2 <= a + |Strip(line)|
  {
    OccursAtSlice(line, "//", c);
    assert line[c] == '/' && line[c + 1] == '/';
    var l := StripLeft(line);
    var a := |line| - |l|;
    StripLeftDropsSpace(line, c);
    StripRightDropsSpace(l, c + 1 - a);
    assert l[c + 1 - a] == line[c + 1];
  }

  /** The non-empty cleaned lines, in order. */
  function CleanLines(lines: seq<string>): (instructions: seq<string>)
    ensures |instructions| <= |lines|
  {
    if lines == [] then []
    else
      var prefix := CleanLines(lines[..|lines| - 1]);
      var line := CleanLine(Last(lines));
      if line != "" then prefix + [line] else prefix
  }

  /** Extending the lines read so far by one line. */
  lemma CleanLinesPrefix(lines: seq<string>, k: nat)
    requires k < |lines|
    ensures CleanLines(lines[..k + 1])
      == if CleanLine(lines[k]) != "" then CleanLines(lines[..k]) + [CleanLine(lines[k])] else CleanLines(lines[..k])
  {
    assert lines[..k + 1][..k] == lines[..k];
  }

  // ---------------------------------------------------------------------
  // First pass and label deletion

  /** A line starting with `(` declares a label. */
  predicate IsLabel(instruction: string) {
    StartsWith(instruction, "(")
  }

  /** The lines that are not label declarations, in order. */
  function NonLabels(instructions: seq<string>): seq<string>
  {
    if instructions == [] then []
    else
      var prefix := NonLabels(instructions[..|instructions| - 1]);
      if IsLabel(Last(instructions)) then prefix else prefix + [Last(instructions)]
  }

  /** The symbol table after the first pass: every label line binds the text
      between its first and last characters to the number of non-label lines
      before it. */
  function Pass1(instructions: seq<string>, table: Table<nat>): (r: Table<nat>)
    ensures Extends(table, r)
    ensures |r| <= |table| + |instructions|
  {
    if instructions == [] then table
    else
      var prefix := instructions[..|instructions| - 1];
      var t := Pass1(prefix, table);
      if IsLabel(Last(instructions)) then Bind<nat>(t, Inner(Last(instructions)), |NonLabels(prefix)|)
      else t
  }

  /** `xs[n:]` */
  function Drop<T>(xs: seq<T>, n: nat): seq<T>
  {
    if n <= |xs| then xs[n..] else []
  }

  /** `del instructions[index]`, with `None` where Python raises `IndexError`. */
  function DeleteAt(instructions: seq<string>, index: nat): (r: Option<seq<string>>)
    ensures r.Some? <==> index < |instructions|
  {
    if index < |instructions| then Some(instructions[..index] + instructions[index + 1..])
    else None
  }

  /** The deletion loop: `del instructions[value]` for each value in turn. */
  function DeleteAll(instructions: seq<string>, values: seq<nat>): (r: Option<seq<string>>)
    ensures r.Some? ==> |r.value| + |values| == |instructions|
    ensures r.Some? ==> forall x :: x in r.value ==> x in instructions
  {
    if values == [] then Some(instructions)
    else
      match DeleteAll(instructions, values[..|values| - 1])
      case None => None
      case Some(rest) =>
        var r := DeleteAt(rest, Last(values));
        assert r.Some? ==> forall x :: x in r.value ==> x in rest by {
          if r.Some? {
            forall x | x in r.value
              ensures x in rest
            {
              var k :| 0 <= k < |r.value| && r.value[k] == x;
              if k < Last(values) {
                assert rest[k] == x;
              } else {
                assert rest[k + 1] == x;
              }
            }
          }
        }
        r
  }

  // ---------------------------------------------------------------------
  // Second pass

  /** `'0' + format(n, '015b')`: the A-instruction word. */
  function AWord(n: nat): (w: string)
    ensures |w| >= 16 && IsBits(w) && w[0] == '0' && Value(w[1..]) == n
    ensures n < Pow2(15) ==> |w| == 16
  {
    var w := "0" + Format(n, 15);
    assert w[1..] == Format(n, 15);
    w
  }

  /** `'111' + comp + dest + jump`: the C-instruction word, when all three
      mnemonics are in their tables. */
  function CWord(f: Fields): (w: Option<string>)
    ensures w.Some? <==> Comp(f.comp).Some? && Dest(f.dest).Some? && Jump(f.jump).Some?
    ensures w.Some? ==> |w.value| == 16 && IsBits(w.value) && w.value[..3] == "111"
  {
    match (Comp(f.comp), Dest(f.dest), Jump(f.jump))
    case (Some(c), Some(d), Some(j)) =>
      WordShape(c, d, j);
      Some("111" + c + d + j)
    case _ => None
  }

  lemma WordShape(c: string, d: string, j: string)
    requires |c| == 7 && |d| == 3 && |j| == 3 && IsBits(c) && IsBits(d) && IsBits(j)
    ensures var w := "111" + c + d + j; |w| == 16 && IsBits(w) && w[..3] == "111"
  {
  }

  /** The translation of one instruction: its word (`None` when a lookup
      fails), the symbol table and `next_free_memory` after it. */
  datatype Translation = Translation(word: Option<string>, table: Table<nat>, nextFree: nat)

  /** The operand of an A-instruction. */
  function Operand(instruction: string): string
    requires StartsWith(instruction, "@")
  {
    instruction[1..]
  }

  /** One instruction of the second pass: an A-instruction takes the
      address of its operand; a C-instruction is looked up in the three
      tables. */
  function Translate(instruction: string, table: Table<nat>, nextFree: nat): (r: Translation)
    ensures StartsWith(instruction, "@") ==> r.word.Some? && IsWord(r.word.value) && r.word.value[0] == '0'
    ensures !StartsWith(instruction, "@") ==>
      && r.table == table && r.nextFree == nextFree
      && (r.word.Some? ==> IsWord(r.word.value) && r.word.value[..3] == "111")
    ensures Extends(table, r.table) && r.nextFree == nextFree + (|r.table| - |table|)
  {
    if StartsWith(instruction, "@") then Address(Operand(instruction), table, nextFree)
    else Translation(CWord(Parse(instruction)), table, nextFree)
  }

  /** An A-instruction: a decimal operand is its own value; a symbol takes
      its address, a new symbol being bound to `nextFree` first. */
  function Address(operand: string, table: Table<nat>, nextFree: nat): (r: Translation)
    ensures r.word.Some? && IsWord(r.word.value) && r.word.value[0] == '0'
    ensures Extends(table, r.table) && r.nextFree == nextFree + (|r.table| - |table|)
  {
    if IsDecimal(operand) then Translation(Some(AWord(DecimalValue(operand))), table, nextFree)
    else if operand in Keys(table) then Translation(Some(AWord(Lookup(table, operand).value)), table, nextFree)
    else Translation(Some(AWord(nextFree)), Bind<nat>(table, operand, nextFree), nextFree + 1)
  }

  /** A line of the output: a bit string of sixteen characters or more. */
  predicate IsWord(w: string) {
    |w| >= 16 && IsBits(w)
  }

  /** The state of the second pass: the symbol table, `next_free_memory`, and
      the words so far, or `None` once a lookup has failed. */
  datatype Pass2State = Pass2State(table: Table<nat>, nextFree: nat, words: Option<seq<string>>)

  /** One step of the second pass; nothing changes after a failure. */
  function Pass2Step(st: Pass2State, instruction: string): (r: Pass2State)
    ensures Extends(st.table, r.table) && r.nextFree == st.nextFree + (|r.table| - |st.table|)
    ensures r.words.Some? ==>
      && st.words.Some? && |r.words.value| == |st.words.value| + 1
      && (forall i :: 0 <= i < |st.words.value| ==> r.words.value[i] == st.words.value[i])
      && IsWord(Last(r.words.value))
  {
    if st.words.None? then st
    else
      var tr := Translate(instruction, st.table, st.nextFree);
      match tr.word
      case None => Pass2State(tr.table, tr.nextFree, None)
      case Some(w) => Pass2State(tr.table, tr.nextFree, Some(st.words.value + [w]))
  }

  /** The second pass over `instructions`, from `start`. */
  function Pass2(instructions: seq<string>, start: Pass2State): (r: Pass2State)
    ensures Extends(start.table, r.table) && r.nextFree == start.nextFree + (|r.table| - |start.table|)
    ensures r.words.Some? ==>
      && start.words.Some? && |r.words.value| == |start.words.value| + |instructions|
      && (forall i :: 0 <= i < |start.words.value| ==> r.words.value[i] == start.words.value[i])
      && forall i :: |start.words.value| <= i < |r.words.value| ==> IsWord(r.words.value[i])
  {
    if instructions == [] then start
    else
      var prev := Pass2(instructions[..|instructions| - 1], start);
      Pass2Step(prev, Last(instructions))
  }

  /** What `assemble` leaves behind: the symbol table and the words, `None`
      where Python raises before writing the output file. */
  datatype Outcome = Outcome(table: Table<nat>, words: Option<seq<string>>)

  /** The passes of `assemble` over the cleaned lines `instructions`, with
      the symbol table `table`. */
  function AssembleInstructions(instructions: seq<string>, table: Table<nat>): (r: Outcome)
    ensures Extends(table, r.table)
    ensures r.words.Some? ==>
      |r.words.value| <= |instructions| && forall i :: 0 <= i < |r.words.value| ==> IsWord(r.words.value[i])
  {
    var labelled := Pass1(instructions, table);
    match DeleteAll(instructions, Drop(Values(labelled), NumberOfPredefinedSymbols))
    case None => Outcome(labelled, None)
    case Some(rest) =>
      var st := Pass2(rest, Pass2State(labelled, 16, Some([])));
      Outcome(st.table, st.words)
  }

  /** `assemble` on the text `content` with the symbol table `table`. */
  function AssembleContent(content: string, table: Table<nat>): (r: Outcome)
    ensures Extends(table, r.table)
    ensures r.words.Some? ==>
      |r.words.value| <= |Split(content, "\n")| && forall i :: 0 <= i < |r.words.value| ==> IsWord(r.words.value[i])
  {
    AssembleInstructions(CleanLines(Split(content, "\n")), table)
  }

  // ---------------------------------------------------------------------
  // The assembler object

  class Assembler {
    var asmFile: string
    var symbolTable: Table<nat>

    constructor()
      ensures asmFile == "" && symbolTable == PredefinedSymbols
    {
      asmFile := "";
      symbolTable := PredefinedSymbols;
    }

    /** `set_asm_file`: a new input file starts from the predefined symbols. */
    method SetAsmFile(file: string)
      modifies this
      ensures asmFile == file && symbolTable == PredefinedSymbols
    {
      asmFile := file;
      InitializeSymbolTable();
    }

    /** `initialize_symbol_table` */
    method InitializeSymbolTable()
      modifies this
      ensures symbolTable == PredefinedSymbols && asmFile == old(asmFile)
    {
      symbolTable := PredefinedSymbols;
    }

    /** `__get_instruction_lists` */
    method GetInstructionLists(content: string) returns (instructions: seq<string>)
      ensures instructions == CleanLines(Split(content, "\n"))
    {
      var lines := Split(content, "\n");
      instructions := [];
      for k := 0 to |lines|
        invariant instructions == CleanLines(lines[..k])
      {
        var line := Strip(lines[k]);
        line := Strip(Split(line, "//")[0]);
        assert line == CleanLine(lines[k]);
        CleanLinesPrefix(lines, k);
        if line != "" {
          instructions := instructions + [line];
        }
      }
      assert lines[..|lines|] == lines;
    }

    /** `assemble`, from the text of the file to the list of words that
        would be written; the symbol table is updated as in Python, also
        when a lookup fails. */
    method Assemble(content: string) returns (hackCode: Option<seq<string>>)
      modifies this
      ensures Outcome(symbolTable, hackCode) == AssembleContent(content, old(symbolTable))
      ensures asmFile == old(asmFile)
    {
      var instructions := GetInstructionLists(content);
      FirstPass(instructions);
      var remaining := DeleteLabels(instructions, Drop(Values(symbolTable), NumberOfPredefinedSymbols));
      if remaining.None? {
        return None;
      }
      hackCode := SecondPass(remaining.value);
    }

    /** The first pass of `assemble`: the counter `i` counts the non-label
        lines, and each label is bound to it. */
    method FirstPass(instructions: seq<string>)
      modifies this
      ensures symbolTable == Pass1(instructions, old(symbolTable)) && asmFile == old(asmFile)
    {
      var i: int := -1;
      for k := 0 to |instructions|
        invariant symbolTable == Pass1(instructions[..k], old(symbolTable))
        invariant i == |NonLabels(instructions[..k])| - 1
        invariant asmFile == old(asmFile)
      {
        var prefix := instructions[..k + 1];
        assert prefix[..k] == instructions[..k] && Last(prefix) == instructions[k];
        i := i + 1;
        if StartsWith(instructions[k], "(") {
          symbolTable := Bind<nat>(symbolTable, Inner(instructions[k]), i);
          i := i - 1;
        }
      }
      assert instructions[..|instructions|] == instructions;
    }

    /** The second pass of `assemble`, one instruction at a time. */
    method SecondPass(instructions: seq<string>) returns (hackCode: Option<seq<string>>)
      modifies this
      ensures var st := Pass2(instructions, Pass2State(old(symbolTable), 16, Some([])));
        symbolTable == st.table && hackCode == st.words
      ensures asmFile == old(asmFile)
    {
      var start := Pass2State(symbolTable, 16, Some([]));
      var hackCodeList: seq<string> := [];
      var nextFreeMemory: nat := 16;
      for k := 0 to |instructions|
        invariant Pass2(instructions[..k], start)
          == Pass2State(symbolTable, nextFreeMemory, Some(hackCodeList))
        invariant asmFile == old(asmFile)
      {
        var prefix := instructions[..k + 1];
        assert prefix[..k] == instructions[..k] && Last(prefix) == instructions[k];
        var word;
        word, nextFreeMemory := TranslateInstruction(instructions[k], nextFreeMemory);
        if word.None? {
          Pass2Stuck(instructions, start, k + 1);
          return None;
        }
        hackCodeList := hackCodeList + [word.value];
      }
      assert instructions[..|instructions|] == instructions;
      hackCode := Some(hackCodeList);
    }

    /** The body of the second-pass loop. */
    method TranslateInstruction(instruction: string, nextFreeMemory: nat) returns (hackCode: Option<string>, nextFree: nat)
      modifies this
      ensures Translation(hackCode, symbolTable, nextFree)
        == Translate(instruction, old(symbolTable), nextFreeMemory)
      ensures asmFile == old(asmFile)
    {
      nextFree := nextFreeMemory;
      if StartsWith(instruction, "@") {
        var operand := instruction[1..];
        var value: nat;
        if IsDecimal(operand) {
          value := DecimalValue(operand);
        } else {
          if operand !in Keys(symbolTable) {
            BindLookup(symbolTable, operand, nextFree, operand);
            symbolTable := Bind<nat>(symbolTable, operand, nextFree);
            nextFree := nextFree + 1;
          }
          value := Lookup(symbolTable, operand).value;
        }
        hackCode := Some(AWord(value));
      } else {
        var fields := Parse(instruction);
        var comp := Comp(fields.comp);
        var dest := Dest(fields.dest);
        var jump := Jump(fields.jump);
        if comp.None? || dest.None? || jump.None? {
          return None, nextFree;
        }
        hackCode := Some("111" + comp.value + dest.value + jump.value);
      }
    }
  }

  /** The deletion loop of `assemble`: `del instructions[value]` for every
      value, failing where Python raises `IndexError`. */
  method DeleteLabels(instructions: seq<string>, values: seq<nat>) returns (remaining: Option<seq<string>>)
    ensures remaining == DeleteAll(instructions, values)
  {
    var current := instructions;
    for k := 0 to |values|
      invariant DeleteAll(instructions, values[..k]) == Some(current)
    {
      assert values[..k + 1][..k] == values[..k];
      if values[k] >= |current| {
        DeleteAllStuck(instructions, values, k + 1);
        return None;
      }
      current := current[..values[k]] + current[values[k] + 1..];
    }
    assert values[..|values|] == values;
    remaining := Some(current);
  }

  /** Once a deletion fails, the whole loop fails. */
  lemma {:induction false} DeleteAllStuck(instructions: seq<string>, values: seq<nat>, k: nat)
    requires k <= |values| && DeleteAll(instructions, values[..k]).None?
    ensures DeleteAll(instructions, values).None?
    decreases |values| - k
  {
    if k < |values| {
      assert values[..k + 1][..k] == values[..k];
      DeleteAllStuck(instructions, values, k + 1);
    } else {
      assert values[..k] == values;
    }
  }

  /** Once a lookup fails, the second pass stays where it failed. */
  lemma {:induction false} Pass2Stuck(instructions: seq<string>, start: Pass2State, k: nat)
    requires k <= |instructions| && Pass2(instructions[..k], start).words.None?
    ensures Pass2(instructions, start) == Pass2(instructions[..k], start)
    decreases |instructions| - k
  {
    if k < |instructions| {
      assert instructions[..k + 1][..k] == instructions[..k];
      Pass2Stuck(instructions, start, k + 1);
    } else {
      assert instructions[..k] == instructions;
    }
  }
}
