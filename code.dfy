/**
  `Asm2CodeTranslator`: the three fixed tables that map the mnemonics of a
  C-instruction to their bits, and the lookups into them.
*/
module Code {
  import opened Options
  import opened OrderedTables
  import opened Binary

  /** The `comp` field: the `a` bit followed by the six ALU control bits. */
  const CompTable: Table<string> := [
    ("0", "0101010"), ("1", "0111111"), ("-1", "0111010"), ("D", "0001100"),
    ("A", "0110000"), ("!D", "0001101"), ("!A", "0110001"), ("-D", "0001111"),
    ("-A", "0110011"), ("D+1", "0011111"), ("A+1", "0110111"), ("D-1", "0001110"),
    ("A-1", "0110010"), ("D+A", "0000010"), ("D-A", "0010011"), ("A-D", "0000111"),
    ("D&A", "0000000"), ("D|A", "0010101"), ("M", "1110000"), ("!M", "1110001"),
    ("-M", "1110011"), ("M+1", "1110111"), ("M-1", "1110010"), ("D+M", "1000010"),
    ("D-M", "1010011"), ("M-D", "1000111"), ("D&M", "1000000"), ("D|M", "1010101")
  ]

  /** The `dest` field: which of A, D and M receive the result. */
  const DestTable: Table<string> := [
    ("", "000"), ("M", "001"), ("D", "010"), ("MD", "011"),
    ("A", "100"), ("AM", "101"), ("AD", "110"), ("AMD", "111")
  ]

  /** The `jump` field: the condition on the ALU output for jumping. */
  const JumpTable: Table<string> := [
    ("", "000"), ("JGT", "001"), ("JEQ", "010"), ("JGE", "011"),
    ("JLT", "100"), ("JNE", "101"), ("JLE", "110"), ("JMP", "111")
  ]

  /** `comp(mnemonic)`: seven bits, the first of which selects M over A; a
      mnemonic outside the table fails. */
  function Comp(mnemonic: string): (code: Option<string>)
    ensures code.None? <==> mnemonic !in Keys(CompTable)
    ensures code.Some? ==> |code.value| == 7 && IsBits(code.value)
    ensures code.Some? ==> (code.value[0] == '1' <==> 'M' in mnemonic)
  {
    CompTableShape();
    TableEntry(CompTable, mnemonic);
    Lookup(CompTable, mnemonic)
  }

  /** `dest(mnemonic)`: three bits marking A, D and M in that order; a
      mnemonic outside the table fails. */
  function Dest(mnemonic: string): (code: Option<string>)
    ensures code.None? <==> mnemonic !in Keys(DestTable)
    ensures code.Some? ==> |code.value| == 3 && IsBits(code.value)
    ensures code.Some? ==>
      && (code.value[0] == '1' <==> 'A' in mnemonic)
      && (code.value[1] == '1' <==> 'D' in mnemonic)
      && (code.value[2] == '1' <==> 'M' in mnemonic)
  {
    DestTableShape();
    TableEntry(DestTable, mnemonic);
    Lookup(DestTable, mnemonic)
  }

  /** `jump(mnemonic)`: three bits; a mnemonic outside the table fails. */
  function Jump(mnemonic: string): (code: Option<string>)
    ensures code.None? <==> mnemonic !in Keys(JumpTable)
    ensures code.Some? ==> |code.value| == 3 && IsBits(code.value)
  {
    JumpTableShape();
    TableEntry(JumpTable, mnemonic);
    Lookup(JumpTable, mnemonic)
  }

  /** A successful lookup returns the code of one of the table's entries. */
  lemma TableEntry(t: Table<string>, mnemonic: string)
    ensures var r := Lookup(t, mnemonic);
      r.Some? ==> exists i :: 0 <= i < |t| && t[i] == (mnemonic, r.value)
  {
  }

  /** The conditions of section 4.2 of "The Elements of Computing Systems":
      when each jump mnemonic jumps, for an ALU output `out`. */
  predicate Jumps(mnemonic: string, out: int) {
    match mnemonic
    case "JGT" => out > 0
    case "JEQ" => out == 0
    case "JGE" => out >= 0
    case "JLT" => out < 0
    case "JNE" => out != 0
    case "JLE" => out <= 0
    case "JMP" => true
    case _ => false
  }

  /** The dest mnemonic whose bits are `code`: the registers the bits mark,
      named in the order A, M, D that the table's keys use. */
  function DestMnemonic(code: string): string
    requires |code| == 3
  {
    (if code[0] == '1' then "A" else "") + (if code[2] == '1' then "M" else "")
    + (if code[1] == '1' then "D" else "")
  }

  /** The jump mnemonic whose three bits are `code`. */
  function JumpMnemonic(code: string): string
  {
    match code
    case "001" => "JGT"
    case "010" => "JEQ"
    case "011" => "JGE"
    case "100" => "JLT"
    case "101" => "JNE"
    case "110" => "JLE"
    case "111" => "JMP"
    case _ => ""
  }

  // ---------------------------------------------------------------------
  // Facts about the tables

  /** Every comp code is seven bits, the first of which is `1` exactly for
      the mnemonics that read M. */
  lemma CompTableShape()
    ensures |CompTable| == 28
    ensures forall i :: 0 <= i < |CompTable| ==> |CompTable[i].1| == 7 && IsBits(CompTable[i].1)
    ensures forall i :: 0 <= i < |CompTable| ==> (CompTable[i].1[0] == '1' <==> 'M' in CompTable[i].0)
  {
    CompCodeBits();
    CompCodeM();
  }

  lemma CompCodeBits()
    ensures forall i :: 0 <= i < |CompTable| ==> |CompTable[i].1| == 7 && IsBits(CompTable[i].1)
  {
  }

  lemma CompCodeM()
    ensures forall i :: 0 <= i < |CompTable| ==> (CompTable[i].1[0] == '1' <==> 'M' in CompTable[i].0)
  {
  }

  /** The 28 comp mnemonics are distinct, and so are their 28 codes. */
  lemma CompDistinct()
    ensures DistinctKeys(CompTable)
    ensures forall i, j :: 0 <= i < j < |CompTable| ==> CompTable[i].1 != CompTable[j].1
  {
    CompKeysLow();
    CompKeysHigh();
    CompKeysAcross();
    CompCodesLow();
    CompCodesHigh();
    CompCodesAcross();
  }

  lemma CompKeysLow()
    ensures forall i, j :: 0 <= i < j < 14 ==> CompTable[i].0 != CompTable[j].0
  {
  }

  lemma CompKeysHigh()
    ensures forall i, j :: 14 <= i < j < 28 ==> CompTable[i].0 != CompTable[j].0
  {
  }

  lemma CompKeysAcross()
    ensures forall i, j :: 0 <= i < 14 <= j < 28 ==> CompTable[i].0 != CompTable[j].0
  {
  }

  lemma CompCodesLow()
    ensures forall i, j :: 0 <= i < j < 14 ==> CompTable[i].1 != CompTable[j].1
  {
  }

  lemma CompCodesHigh()
    ensures forall i, j :: 14 <= i < j < 28 ==> CompTable[i].1 != CompTable[j].1
  {
  }

  lemma CompCodesAcross()
    ensures forall i, j :: 0 <= i < 14 <= j < 28 ==> CompTable[i].1 != CompTable[j].1
  {
  }

  /** Every dest code is three bits marking A, D and M; the keys and the
      codes are distinct. */
  lemma DestTableShape()
    ensures |DestTable| == 8 && DistinctKeys(DestTable)
    ensures forall i, j :: 0 <= i < j < |DestTable| ==> DestTable[i].1 != DestTable[j].1
    ensures forall i :: 0 <= i < |DestTable| ==> |DestTable[i].1| == 3 && IsBits(DestTable[i].1)
    ensures forall i :: 0 <= i < |DestTable| ==>
      && (DestTable[i].1[0] == '1' <==> 'A' in DestTable[i].0)
      && (DestTable[i].1[1] == '1' <==> 'D' in DestTable[i].0)
      && (DestTable[i].1[2] == '1' <==> 'M' in DestTable[i].0)
  {
    DestDistinct();
    DestCodeBits();
  }

  lemma DestDistinct()
    ensures |DestTable| == 8 && DistinctKeys(DestTable)
    ensures forall i, j :: 0 <= i < j < |DestTable| ==> DestTable[i].1 != DestTable[j].1
  {
  }

  lemma DestCodeBits()
    ensures forall i :: 0 <= i < |DestTable| ==>
      && (DestTable[i].1[0] == '1' <==> 'A' in DestTable[i].0)
      && (DestTable[i].1[1] == '1' <==> 'D' in DestTable[i].0)
      && (DestTable[i].1[2] == '1' <==> 'M' in DestTable[i].0)
  {
  }

  /** Every jump code is three bits; the keys and the codes are distinct. */
  lemma JumpTableShape()
    ensures |JumpTable| == 8 && DistinctKeys(JumpTable)
    ensures forall i, j :: 0 <= i < j < |JumpTable| ==> JumpTable[i].1 != JumpTable[j].1
    ensures forall i :: 0 <= i < |JumpTable| ==> |JumpTable[i].1| == 3 && IsBits(JumpTable[i].1)
  {
  }

  /** A table whose codes are distinct gives different mnemonics different
      codes. */
  lemma LookupInjective(t: Table<string>, m1: string, m2: string)
    requires forall i, j :: 0 <= i < j < |t| ==> t[i].1 != t[j].1
    ensures Lookup(t, m1).Some? && Lookup(t, m1) == Lookup(t, m2) ==> m1 == m2
  {
    if Lookup(t, m1).Some? && Lookup(t, m1) == Lookup(t, m2) {
      var code := Lookup(t, m1).value;
      var i :| 0 <= i < |t| && t[i] == (m1, code);
      var j :| 0 <= j < |t| && t[j] == (m2, code);
      assert i == j;
    }
  }

  /** No two comp mnemonics share a code. */
  lemma CompInjective(m1: string, m2: string)
    ensures Comp(m1).Some? && Comp(m1) == Comp(m2) ==> m1 == m2
  {
    CompDistinct();
    LookupInjective(CompTable, m1, m2);
  }

  /** The dest table maps its eight mnemonics one-to-one onto all eight
      three-bit strings: each string is the code of the mnemonic naming the
      registers its bits mark. */
  lemma DestOnto(code: string)
    requires |code| == 3 && IsBits(code)
    ensures Dest(DestMnemonic(code)) == Some(code)
  {
    var k := BitsIndex(code);
    DestInCountingOrder();
    BitsIndexInjective(code, DestTable[k].1);
    DestTableShape();
    LookupDistinct(DestTable, k);
  }

  /** Entry `k` of the dest table holds the `k`-th three-bit string, keyed
      by the registers it marks. */
  lemma DestInCountingOrder()
    ensures forall k :: 0 <= k < |DestTable| ==>
      |DestTable[k].1| == 3 && IsBits(DestTable[k].1)
      && BitsIndex(DestTable[k].1) == k && DestMnemonic(DestTable[k].1) == DestTable[k].0
  {
  }

  /** Three-bit strings are told apart by their index. */
  lemma BitsIndexInjective(a: string, b: string)
    requires |a| == 3 && IsBits(a) && |b| == 3 && IsBits(b)
    ensures BitsIndex(a) == BitsIndex(b) ==> a == b
  {
    assert a == [a[0], a[1], a[2]] && b == [b[0], b[1], b[2]];
  }

  lemma DestInjective(m1: string, m2: string)
    ensures Dest(m1).Some? && Dest(m1) == Dest(m2) ==> m1 == m2
  {
    DestTableShape();
    LookupInjective(DestTable, m1, m2);
  }

  /** The jump table maps its eight mnemonics one-to-one onto all eight
      three-bit strings. */
  lemma JumpOnto(code: string)
    requires |code| == 3 && IsBits(code)
    ensures Jump(JumpMnemonic(code)) == Some(code)
  {
    var k := BitsIndex(code);
    JumpInCountingOrder();
    BitsIndexInjective(code, JumpTable[k].1);
    JumpTableShape();
    LookupDistinct(JumpTable, k);
  }

  /** The number a three-bit string writes in binary. */
  function BitsIndex(code: string): (k: nat)
    requires |code| == 3
    ensures k < 8
  {
    (if code[0] == '1' then 4 else 0) + (if code[1] == '1' then 2 else 0)
    + (if code[2] == '1' then 1 else 0)
  }

  /** Entry `k` of the jump table holds the `k`-th three-bit string. */
  lemma JumpInCountingOrder()
    ensures forall k :: 0 <= k < |JumpTable| ==>
      |JumpTable[k].1| == 3 && IsBits(JumpTable[k].1)
      && BitsIndex(JumpTable[k].1) == k && JumpMnemonic(JumpTable[k].1) == JumpTable[k].0
  {
  }

  lemma JumpInjective(m1: string, m2: string)
    ensures Jump(m1).Some? && Jump(m1) == Jump(m2) ==> m1 == m2
  {
    JumpTableShape();
    LookupInjective(JumpTable, m1, m2);
  }

  /** The three jump bits select a negative, a zero and a positive ALU
      output, in that order: the code jumps exactly when its mnemonic's
      condition holds. */
  lemma JumpBitsMeanConditions(mnemonic: string, out: int)
    requires Jump(mnemonic).Some?
    ensures var code := Jump(mnemonic).value;
      Jumps(mnemonic, out) <==>
        (out < 0 && code[0] == '1') || (out == 0 && code[1] == '1') || (out > 0 && code[2] == '1')
  {
    JumpTableMeaning(out);
    TableEntry(JumpTable, mnemonic);
  }

  lemma JumpTableMeaning(out: int)
    ensures forall i :: 0 <= i < |JumpTable| ==>
      (Jumps(JumpTable[i].0, out) <==>
        (out < 0 && JumpTable[i].1[0] == '1') || (out == 0 && JumpTable[i].1[1] == '1')
        || (out > 0 && JumpTable[i].1[2] == '1'))
  {
  }
}
