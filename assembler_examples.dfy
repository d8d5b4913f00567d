/** Worked instances: where splitting at `comp` goes wrong in the parser,
    and two whole programs taken through both passes of the assembler. */
module AssemblerExamples {
  import opened Options
  import opened Text
  import opened OrderedTables
  import opened AsmParser
  import opened Code
  import opened HackAssembler
  import AssemblerProofs

  /** `x=x` for a one-character `x`: `comp` occurs again before the `=`,
      so the piece after its first occurrence is `=`, which becomes the jump
      mnemonic. */
  lemma ParseSelfAssignment(x: char)
    requires x != '=' && x != ';' && x != '@'
    ensures Parse([x, '=', x]) == Fields([x], [x], "=")
  {
    SelfAssignmentComp(x);
    SelfAssignmentJump(x);
  }

  lemma SelfAssignmentComp(x: char)
    requires x != '=' && x != ';'
    ensures CompField([x, '=', x]) == [x]
  {
    var s := [x, '=', x];
    CompFieldSpec(s, 2, 3);
    assert s[2..3] == [x];
  }

  lemma SelfAssignmentJump(x: char)
    requires x != '=' && x != ';'
    ensures JumpField([x, '=', x]) == "="
  {
    var s := [x, '=', x];
    SelfAssignmentComp(x);
    OccursAtChar(s, x, 0);
    OccursAtChar(s, x, 1);
    OccursAtChar(s, x, 2);
    JumpFieldSpec(s, 0, 2);
    assert s[1..2] == "=";
  }

  /** `c;j1 c j2` with a one-character `c` that is also the middle letter
      of the jump: the jump mnemonic comes out as its first letter alone. */
  lemma ParseCompInJump(c: char, j1: char, j2: char)
    requires c != '=' && c != ';' && c != '@' && j1 != '=' && j2 != '='
    requires j1 != c
    ensures Parse([c, ';', j1, c, j2]) == Fields("", [c], [j1])
  {
    CompInJumpComp(c, j1, j2);
    CompInJumpJump(c, j1, j2);
  }

  lemma CompInJumpComp(c: char, j1: char, j2: char)
    requires c != '=' && c != ';' && j1 != '=' && j2 != '='
    ensures CompField([c, ';', j1, c, j2]) == [c]
  {
    var s := [c, ';', j1, c, j2];
    CompFieldSpec(s, 0, 1);
    assert s[0..1] == [c];
  }

  lemma CompInJumpJump(c: char, j1: char, j2: char)
    requires c != '=' && c != ';' && j1 != '=' && j2 != '=' && j1 != c
    ensures JumpField([c, ';', j1, c, j2]) == [j1]
  {
    var s := [c, ';', j1, c, j2];
    CompInJumpComp(c, j1, j2);
    OccursAtChar(s, c, 0);
    OccursAtChar(s, c, 1);
    OccursAtChar(s, c, 2);
    OccursAtChar(s, c, 3);
    JumpFieldSpec(s, 0, 3);
    assert s[1..3] == [';', j1];
  }

  /** So `D=D`, `A=A` or `M=M` produce no word: `=` is not a jump
      mnemonic. */
  lemma SelfAssignmentRejected(x: char)
    requires x != '=' && x != ';' && x != '@'
    ensures CWord(Parse([x, '=', x])) == None
  {
    ParseSelfAssignment(x);
    assert "=" !in Keys(JumpTable);
  }

  /** And neither does `M;JMP`: `J` is not a jump mnemonic either. */
  lemma CompInJumpRejected(c: char, j2: char)
    requires c != '=' && c != ';' && c != '@' && c != 'J' && j2 != '='
    ensures CWord(Parse([c, ';', 'J', c, j2])) == None
  {
    ParseCompInJump(c, 'J', j2);
    assert "J" !in Keys(JumpTable);
  }

  // ---------------------------------------------------------------------
  // Steps of a worked program

  /** A C-instruction whose three mnemonics stand at the given entries of
      the tables gets the word made of those entries' codes. */
  lemma CWordAt(f: Fields, ci: nat, di: nat, ji: nat, w: string)
    requires ci < |CompTable| && di < |DestTable| && ji < |JumpTable|
    requires CompTable[ci].0 == f.comp && DestTable[di].0 == f.dest && JumpTable[ji].0 == f.jump
    requires w == "111" + CompTable[ci].1 + DestTable[di].1 + JumpTable[ji].1
    ensures CWord(f) == Some(w)
  {
    CompDistinct();
    LookupDistinct(CompTable, ci);
    DestTableShape();
    LookupDistinct(DestTable, di);
    JumpTableShape();
    LookupDistinct(JumpTable, ji);
  }

  /** A decimal A-instruction. */
  lemma DecimalWord(instruction: string, table: Table<nat>, next: nat, n: nat, w: string)
    requires StartsWith(instruction, "@") && IsDecimal(instruction[1..])
    requires DecimalValue(instruction[1..]) == n && AWord(n) == w
    ensures Translate(instruction, table, next) == Translation(Some(w), table, next)
  {
  }

  /** An A-instruction naming a bound symbol. */
  lemma SymbolWord(instruction: string, table: Table<nat>, next: nat, n: nat, w: string)
    requires StartsWith(instruction, "@") && !IsDecimal(instruction[1..])
    requires Lookup(table, instruction[1..]) == Some(n) && AWord(n) == w
    ensures Translate(instruction, table, next) == Translation(Some(w), table, next)
  {
  }

  /** A C-instruction. */
  lemma ComputeWord(instruction: string, table: Table<nat>, next: nat, f: Fields, w: string)
    requires !StartsWith(instruction, "@") && Parse(instruction) == f && CWord(f) == Some(w)
    ensures Translate(instruction, table, next) == Translation(Some(w), table, next)
  {
  }

  /** A second pass over instructions none of which binds a symbol appends
      their words in order. */
  lemma {:induction false} Pass2Words(xs: seq<string>, start: Pass2State, ws: seq<string>)
    requires start.words.Some? && |ws| == |xs|
    requires forall i :: 0 <= i < |xs| ==>
      Translate(xs[i], start.table, start.nextFree) == Translation(Some(ws[i]), start.table, start.nextFree)
    ensures Pass2(xs, start) == Pass2State(start.table, start.nextFree, Some(start.words.value + ws))
    decreases |xs|
  {
    if xs == [] {
      assert start.words.value + ws == start.words.value;
    } else {
      var n := |xs| - 1;
      forall i | 0 <= i < n
        ensures Translate(xs[..n][i], start.table, start.nextFree)
             == Translation(Some(ws[..n][i]), start.table, start.nextFree)
      {
        assert xs[..n][i] == xs[i] && ws[..n][i] == ws[i];
      }
      Pass2Words(xs[..n], start, ws[..n]);
      assert xs[..|xs| - 1] == xs[..n] && Last(xs) == xs[n];
      assert Translate(xs[n], start.table, start.nextFree)
          == Translation(Some(ws[n]), start.table, start.nextFree);
      AppendLast(start.words.value, ws);
    }
  }

  lemma AppendLast(u: seq<string>, ws: seq<string>)
    requires ws != []
    ensures u + ws[..|ws| - 1] + [ws[|ws| - 1]] == u + ws
  {
    assert ws[..|ws| - 1] + [ws[|ws| - 1]] == ws;
  }

  /** A first pass over lines of which none from `k` on is a label ends
      where the first `k` lines leave it. */
  lemma {:induction false} Pass1Plain(xs: seq<string>, k: nat, table: Table<nat>)
    requires k <= |xs|
    requires forall i :: k <= i < |xs| ==> !IsLabel(xs[i])
    ensures Pass1(xs, table) == Pass1(xs[..k], table)
    decreases |xs|
  {
    if |xs| > k {
      var n := |xs| - 1;
      Pass1Plain(xs[..n], k, table);
      assert xs[..n][..k] == xs[..k];
    } else {
      assert xs[..k] == xs;
    }
  }

  // ---------------------------------------------------------------------
  // Parsing

  lemma ParseDA()
    ensures Parse("D=A") == Fields("D", "A", "")
  {
    var f := Fields("D", "A", "");
    assert Render(f) == "D=A";
    forall i | 0 <= i <= 3 && OccursAt("D=A", "A", i)
      ensures i == 2
    {
      OccursAtChar("D=A", 'A', i);
    }
    assert "D=A"[0] == 'D';
    ParseRender(f);
  }

  lemma ParseDDA()
    ensures Parse("D=D+A") == Fields("D", "D+A", "")
  {
    var f := Fields("D", "D+A", "");
    var s := "D=D+A";
    assert Render(f) == s;
    forall i | 0 <= i <= 5 && OccursAt(s, "D+A", i)
      ensures i == 2
    {
      OccursAtSlice(s, "D+A", i);
    }
    assert s[0] == 'D';
    ParseRender(f);
  }

  lemma ParseMD()
    ensures Parse("M=D") == Fields("M", "D", "")
  {
    var f := Fields("M", "D", "");
    assert Render(f) == "M=D";
    forall i | 0 <= i <= 3 && OccursAt("M=D", "D", i)
      ensures i == 2
    {
      OccursAtChar("M=D", 'D', i);
    }
    assert "M=D"[0] == 'M';
    ParseRender(f);
  }

  lemma ParseJMP()
    ensures Parse("0;JMP") == Fields("", "0", "JMP")
  {
    var f := Fields("", "0", "JMP");
    assert Render(f) == "0;JMP";
    forall i | 0 <= i <= 5 && OccursAt("0;JMP", "0", i)
      ensures i == 0
    {
      OccursAtChar("0;JMP", '0', i);
    }
    assert "0;JMP"[0] == '0';
    ParseRender(f);
  }

  // ---------------------------------------------------------------------
  // Words

  lemma WordZero()
    ensures AWord(0) == "0000000000000000"
  {
  }

  lemma WordTwo()
    ensures AWord(2) == "0000000000000010"
  {
  }

  lemma WordThree()
    ensures AWord(3) == "0000000000000011"
  {
  }

  lemma WordDA()
    ensures CWord(Fields("D", "A", "")) == Some("1110110000010000")
  {
    CWordAt(Fields("D", "A", ""), 4, 2, 0, "1110110000010000");
  }

  lemma WordDDA()
    ensures CWord(Fields("D", "D+A", "")) == Some("1110000010010000")
  {
    CWordAt(Fields("D", "D+A", ""), 13, 2, 0, "1110000010010000");
  }

  lemma WordMD()
    ensures CWord(Fields("M", "D", "")) == Some("1110001100001000")
  {
    CWordAt(Fields("M", "D", ""), 3, 1, 0, "1110001100001000");
  }

  lemma WordJMP()
    ensures CWord(Fields("", "0", "JMP")) == Some("1110101010000111")
  {
    CWordAt(Fields("", "0", "JMP"), 0, 0, 7, "1110101010000111");
  }

  lemma LoopIsNew()
    ensures "LOOP" !in Keys(PredefinedSymbols)
  {
  }

  // ---------------------------------------------------------------------
  // Programs

  /** `D = 2 + 3` stored at RAM[0]. */
  const AddLines := ["@2", "D=A", "@3", "D=D+A", "@0", "M=D"]
  const AddWords := ["0000000000000010", "1110110000010000", "0000000000000011",
                     "1110000010010000", "0000000000000000", "1110001100001000"]

  lemma AddNoLabels()
    ensures Pass1(AddLines, PredefinedSymbols) == PredefinedSymbols
  {
    forall i | 0 <= i < |AddLines|
      ensures !IsLabel(AddLines[i])
    {
      assert AddLines[i][0] != '(';
    }
    Pass1Plain(AddLines, 0, PredefinedSymbols);
    assert AddLines[..0] == [];
  }

  lemma AtTwo(t: Table<nat>, next: nat)
    ensures Translate("@2", t, next) == Translation(Some("0000000000000010"), t, next)
  {
    assert "@2"[1..] == "2";
    WordTwo();
    DecimalWord("@2", t, next, 2, "0000000000000010");
  }

  lemma AtThree(t: Table<nat>, next: nat)
    ensures Translate("@3", t, next) == Translation(Some("0000000000000011"), t, next)
  {
    assert "@3"[1..] == "3";
    WordThree();
    DecimalWord("@3", t, next, 3, "0000000000000011");
  }

  lemma AtZero(t: Table<nat>, next: nat)
    ensures Translate("@0", t, next) == Translation(Some("0000000000000000"), t, next)
  {
    assert "@0"[1..] == "0";
    WordZero();
    DecimalWord("@0", t, next, 0, "0000000000000000");
  }

  lemma ComputeDA(t: Table<nat>, next: nat)
    ensures Translate("D=A", t, next) == Translation(Some("1110110000010000"), t, next)
  {
    ParseDA();
    WordDA();
    ComputeWord("D=A", t, next, Fields("D", "A", ""), "1110110000010000");
  }

  lemma ComputeDDA(t: Table<nat>, next: nat)
    ensures Translate("D=D+A", t, next) == Translation(Some("1110000010010000"), t, next)
  {
    ParseDDA();
    WordDDA();
    ComputeWord("D=D+A", t, next, Fields("D", "D+A", ""), "1110000010010000");
  }

  lemma ComputeMD(t: Table<nat>, next: nat)
    ensures Translate("M=D", t, next) == Translation(Some("1110001100001000"), t, next)
  {
    ParseMD();
    WordMD();
    ComputeWord("M=D", t, next, Fields("M", "D", ""), "1110001100001000");
  }

  lemma AddTranslations(t: Table<nat>, next: nat)
    ensures forall i :: 0 <= i < |AddLines| ==>
      Translate(AddLines[i], t, next) == Translation(Some(AddWords[i]), t, next)
  {
    forall i | 0 <= i < |AddLines|
      ensures Translate(AddLines[i], t, next) == Translation(Some(AddWords[i]), t, next)
    {
      if i == 0 {
        assert AddLines[0] == "@2";
        assert AddWords[0] == "0000000000000010";
        AtTwo(t, next);
      } else if i == 1 {
        assert AddLines[1] == "D=A";
        assert AddWords[1] == "1110110000010000";
        ComputeDA(t, next);
      } else if i == 2 {
        assert AddLines[2] == "@3";
        assert AddWords[2] == "0000000000000011";
        AtThree(t, next);
      } else if i == 3 {
        assert AddLines[3] == "D=D+A";
        assert AddWords[3] == "1110000010010000";
        ComputeDDA(t, next);
      } else if i == 4 {
        assert AddLines[4] == "@0";
        assert AddWords[4] == "0000000000000000";
        AtZero(t, next);
      } else {
        assert AddLines[5] == "M=D";
        assert AddWords[5] == "1110001100001000";
        ComputeMD(t, next);
      }
    }
  }

  lemma AddProgram()
    ensures AssembleInstructions(AddLines, PredefinedSymbols) == Outcome(PredefinedSymbols, Some(AddWords))
  {
    var ps := PredefinedSymbols;
    AddNoLabels();
    AssemblerProofs.PredefinedSymbolsFacts();
    assert Drop(Values(ps), NumberOfPredefinedSymbols) == [];
    AddTranslations(ps, 16);
    Pass2Words(AddLines, Pass2State(ps, 16, Some([])), AddWords);
    assert [] + AddWords == AddWords;
  }

  /** An endless loop: the label binds `LOOP` to the address of the next
      instruction, and its line is deleted before the second pass. */
  const LoopLines := ["(LOOP)", "@LOOP", "0;JMP"]
  const LoopWords := ["0000000000000000", "1110101010000111"]

  /** A one-line program declaring a label binds it to address 0. */
  lemma Pass1OneLabel(x: string, t: Table<nat>)
    requires IsLabel(x)
    ensures Pass1([x], t) == Bind(t, Inner(x), 0)
  {
    assert [x][..0] == [];
  }

  lemma LoopPass1()
    ensures Pass1(LoopLines, PredefinedSymbols) == PredefinedSymbols + [("LOOP", 0)]
  {
    var ps := PredefinedSymbols;
    forall i | 1 <= i < |LoopLines|
      ensures !IsLabel(LoopLines[i])
    {
      assert LoopLines[i][0] != '(';
    }
    Pass1Plain(LoopLines, 1, ps);
    assert LoopLines[..1] == ["(LOOP)"];
    assert "(LOOP)"[0] == '(';
    Pass1OneLabel("(LOOP)", ps);
    assert Inner("(LOOP)") == "LOOP";
    LoopIsNew();
    BindOrder(ps, "LOOP", 0);
  }

  lemma AtLoop(t: Table<nat>, next: nat)
    requires Lookup(t, "LOOP") == Some(0)
    ensures Translate("@LOOP", t, next) == Translation(Some("0000000000000000"), t, next)
  {
    assert "@LOOP"[1..] == "LOOP" && "LOOP"[0] == 'L';
    WordZero();
    SymbolWord("@LOOP", t, next, 0, "0000000000000000");
  }

  lemma ComputeJMP(t: Table<nat>, next: nat)
    ensures Translate("0;JMP", t, next) == Translation(Some("1110101010000111"), t, next)
  {
    ParseJMP();
    WordJMP();
    ComputeWord("0;JMP", t, next, Fields("", "0", "JMP"), "1110101010000111");
  }

  lemma LoopTranslations(t: Table<nat>, next: nat)
    requires Lookup(t, "LOOP") == Some(0)
    ensures forall i :: 0 <= i < |LoopWords| ==>
      Translate(LoopLines[1..][i], t, next) == Translation(Some(LoopWords[i]), t, next)
  {
    forall i | 0 <= i < |LoopWords|
      ensures Translate(LoopLines[1..][i], t, next) == Translation(Some(LoopWords[i]), t, next)
    {
      if i == 0 {
        assert LoopLines[1..][0] == "@LOOP";
        assert LoopWords[0] == "0000000000000000";
        AtLoop(t, next);
      } else {
        assert LoopLines[1..][1] == "0;JMP";
        assert LoopWords[1] == "1110101010000111";
        ComputeJMP(t, next);
      }
    }
  }

  lemma LoopLabelDeleted()
    ensures DeleteAll(LoopLines, Drop(Values(PredefinedSymbols + [("LOOP", 0)]), NumberOfPredefinedSymbols))
         == Some(LoopLines[1..])
  {
    var ps := PredefinedSymbols;
    AssemblerProofs.PredefinedSymbolsFacts();
    KeysAppend(ps, [("LOOP", 0)]);
    assert Values(ps + [("LOOP", 0)]) == Values(ps) + [0];
    assert Drop(Values(ps) + [0], |ps|) == [0];
    assert [0][..0] == [];
    assert LoopLines[..0] + LoopLines[1..] == LoopLines[1..];
  }

  lemma LoopBound()
    ensures Lookup(PredefinedSymbols + [("LOOP", 0)], "LOOP") == Some(0)
  {
    LoopIsNew();
    LookupAppend(PredefinedSymbols, [("LOOP", 0)], "LOOP");
  }

  lemma LoopProgram()
    ensures AssembleInstructions(LoopLines, PredefinedSymbols)
         == Outcome(PredefinedSymbols + [("LOOP", 0)], Some(LoopWords))
  {
    var ps := PredefinedSymbols;
    var labelled := ps + [("LOOP", 0)];
    LoopPass1();
    LoopLabelDeleted();
    LoopBound();
    LoopTranslations(labelled, 16);
    Pass2Words(LoopLines[1..], Pass2State(labelled, 16, Some([])), LoopWords);
    assert [] + LoopWords == LoopWords;
  }
}
