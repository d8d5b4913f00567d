/**
  What the two passes of the assembler compute, stated against reference
  definitions: the label bindings of the first pass, the lines the
  deletion loop removes, and the single symbol table against which the
  second pass encodes every instruction.
*/
module AssemblerProofs {
  import opened Options
  import opened Text
  import opened OrderedTables
  import opened Binary
  import opened AsmParser
  import opened Code
  import opened HackAssembler

  // ---------------------------------------------------------------------
  // The predefined symbols

  /** The table `initialize_symbol_table` installs holds
      `__NUMBER_OF_PREDEFINED_SYMBOLS` distinct names, so each of them reads
      the address listed with it. */
  lemma PredefinedSymbolsFacts()
    ensures |PredefinedSymbols| == NumberOfPredefinedSymbols
    ensures DistinctKeys(PredefinedSymbols)
    ensures forall i :: 0 <= i < |PredefinedSymbols| ==>
      Lookup(PredefinedSymbols, PredefinedSymbols[i].0) == Some(PredefinedSymbols[i].1)
  {
    PredefinedLow();
    PredefinedHigh();
    PredefinedAcross();
    forall i | 0 <= i < |PredefinedSymbols|
      ensures Lookup(PredefinedSymbols, PredefinedSymbols[i].0) == Some(PredefinedSymbols[i].1)
    {
      LookupDistinct(PredefinedSymbols, i);
    }
  }

  lemma PredefinedLow()
    ensures forall i, j :: 0 <= i < j < 12 ==> PredefinedSymbols[i].0 != PredefinedSymbols[j].0
  {
  }

  lemma PredefinedHigh()
    ensures forall i, j :: 12 <= i < j < 23 ==> PredefinedSymbols[i].0 != PredefinedSymbols[j].0
  {
  }

  lemma PredefinedAcross()
    ensures forall i, j :: 0 <= i < 12 <= j < 23 ==> PredefinedSymbols[i].0 != PredefinedSymbols[j].0
  {
  }

  // ---------------------------------------------------------------------
  // Cleaning

  /** Each line cleaned, one for one. */
  function Cleaned(lines: seq<string>): (r: seq<string>)
    ensures |r| == |lines|
  {
    seq(|lines|, i requires 0 <= i < |lines| => CleanLine(lines[i]))
  }

  /** The non-empty strings of `xs`, in order. */
  function NonEmpty(xs: seq<string>): seq<string>
  {
    if xs == [] then []
    else if Last(xs) != "" then NonEmpty(xs[..|xs| - 1]) + [Last(xs)]
    else NonEmpty(xs[..|xs| - 1])
  }

  /** The positions of the non-empty strings of `xs`, in order. */
  function Positions(xs: seq<string>): seq<nat>
  {
    if xs == [] then []
    else if Last(xs) != "" then Positions(xs[..|xs| - 1]) + [|xs| - 1]
    else Positions(xs[..|xs| - 1])
  }

  /** Cleaning line by line and keeping the non-empty results is what the
      loop of `__get_instruction_lists` does. */
  lemma {:induction false} CleanLinesFilter(lines: seq<string>)
    ensures CleanLines(lines) == NonEmpty(Cleaned(lines))
    decreases |lines|
  {
    if lines != [] {
      var prefix := lines[..|lines| - 1];
      CleanLinesFilter(prefix);
      var xs := Cleaned(lines);
      assert xs[..|xs| - 1] == Cleaned(prefix);
      assert Last(xs) == CleanLine(Last(lines));
    }
  }

  /** `NonEmpty` keeps, in increasing positions, exactly the non-empty
      entries. */
  lemma {:induction false} PositionsRead(xs: seq<string>)
    ensures |Positions(xs)| == |NonEmpty(xs)|
    ensures forall k :: 0 <= k < |Positions(xs)| ==>
      Positions(xs)[k] < |xs| && NonEmpty(xs)[k] == xs[Positions(xs)[k]] && NonEmpty(xs)[k] != ""
    ensures forall a, b :: 0 <= a < b < |Positions(xs)| ==> Positions(xs)[a] < Positions(xs)[b]
    ensures forall j :: 0 <= j < |xs| && j !in Positions(xs) ==> xs[j] == ""
    decreases |xs|
  {
    if xs != [] {
      var prefix := xs[..|xs| - 1];
      PositionsRead(prefix);
      assert Last(xs) == xs[|xs| - 1];
      var o := Positions(xs);
      var r := NonEmpty(xs);
      forall k | 0 <= k < |o|
        ensures o[k] < |xs| && r[k] == xs[o[k]] && r[k] != ""
      {
        if k < |Positions(prefix)| {
          assert o[k] == Positions(prefix)[k] && r[k] == NonEmpty(prefix)[k];
        }
      }
      forall a, b | 0 <= a < b < |o|
        ensures o[a] < o[b]
      {
        assert o[a] == Positions(prefix)[a];
        if b < |Positions(prefix)| {
          assert o[b] == Positions(prefix)[b];
        }
      }
      forall j | 0 <= j < |xs| && j !in o
        ensures xs[j] == ""
      {
        if j < |prefix| {
          assert j !in Positions(prefix);
        }
      }
    }
  }

  /** `__get_instruction_lists` keeps, in order, the cleaned form of exactly
      the lines that do not clean to the empty string: the `k`-th instruction
      is the cleaned line at the `k`-th of increasing positions, and every
      other line cleans to nothing. */
  lemma CleanLinesKeep(lines: seq<string>)
    ensures var origins := Positions(Cleaned(lines));
      && |origins| == |CleanLines(lines)|
      && (forall k :: 0 <= k < |origins| ==>
            origins[k] < |lines| && CleanLines(lines)[k] == CleanLine(lines[origins[k]]) && CleanLines(lines)[k] != "")
      && (forall a, b :: 0 <= a < b < |origins| ==> origins[a] < origins[b])
      && (forall j :: 0 <= j < |lines| && j !in origins ==> CleanLine(lines[j]) == "")
  {
    CleanLinesFilter(lines);
    PositionsRead(Cleaned(lines));
    forall i | 0 <= i < |lines|
      ensures Cleaned(lines)[i] == CleanLine(lines[i])
    {
    }
  }

  // ---------------------------------------------------------------------
  // The first pass

  /** The non-label lines of a concatenation. */
  lemma {:induction false} NonLabelsAppend(a: seq<string>, b: seq<string>)
    ensures NonLabels(a + b) == NonLabels(a) + NonLabels(b)
    decreases |b|
  {
    if b == [] {
      assert a + b == a;
    } else {
      var ab := a + b;
      assert ab[..|ab| - 1] == a + b[..|b| - 1];
      assert Last(ab) == Last(b);
      NonLabelsAppend(a, b[..|b| - 1]);
    }
  }

  /** A label is bound to the number of non-label lines before its last
      declaration. */
  lemma {:induction false} Pass1Binds(instructions: seq<string>, table: Table<nat>, k: nat)
    requires k < |instructions| && IsLabel(instructions[k])
    requires forall j :: k < j < |instructions| && IsLabel(instructions[j]) ==>
      Inner(instructions[j]) != Inner(instructions[k])
    ensures Lookup(Pass1(instructions, table), Inner(instructions[k])) == Some(|NonLabels(instructions[..k])|)
    decreases |instructions|
  {
    var prefix := instructions[..|instructions| - 1];
    var t := Pass1(prefix, table);
    if k == |instructions| - 1 {
      assert prefix == instructions[..k];
      BindLookup<nat>(t, Inner(instructions[k]), |NonLabels(prefix)|, Inner(instructions[k]));
    } else {
      assert prefix[..k] == instructions[..k];
      Pass1Binds(prefix, table, k);
      if IsLabel(Last(instructions)) {
        assert Last(instructions) == instructions[|instructions| - 1];
        BindLookup<nat>(t, Inner(Last(instructions)), |NonLabels(prefix)|, Inner(instructions[k]));
      }
    }
  }

  /** A name no label line declares keeps its value through the first pass. */
  lemma {:induction false} Pass1KeepsOthers(instructions: seq<string>, table: Table<nat>, name: string)
    requires forall j :: 0 <= j < |instructions| && IsLabel(instructions[j]) ==> Inner(instructions[j]) != name
    ensures Lookup(Pass1(instructions, table), name) == Lookup(table, name)
    decreases |instructions|
  {
    if instructions != [] {
      var prefix := instructions[..|instructions| - 1];
      var x := Last(instructions);
      assert x == instructions[|instructions| - 1];
      Pass1KeepsOthers(prefix, table, name);
      if IsLabel(x) {
        BindLookup<nat>(Pass1(prefix, table), Inner(x), |NonLabels(prefix)|, name);
      }
    }
  }

  /** The bindings the labels of `instructions` make when their names are
      new: one per label line, in order, to the number of non-label lines
      before it. */
  function LabelBindings(instructions: seq<string>): (t: Table<nat>)
    ensures |t| <= |instructions|
  {
    if instructions == [] then []
    else
      var prefix := instructions[..|instructions| - 1];
      if IsLabel(Last(instructions)) then LabelBindings(prefix) + [(Inner(Last(instructions)), |NonLabels(prefix)|)]
      else LabelBindings(prefix)
  }

  /** Every label line declares a different name, and none of them is
      already in `table`. */
  predicate FreshLabels(instructions: seq<string>, table: Table<nat>) {
    && (forall i, j :: 0 <= i < j < |instructions| && IsLabel(instructions[i]) && IsLabel(instructions[j]) ==>
         Inner(instructions[i]) != Inner(instructions[j]))
    && (forall i :: 0 <= i < |instructions| && IsLabel(instructions[i]) ==> Inner(instructions[i]) !in Keys(table))
  }

  /** The names `LabelBindings` binds are the names of label lines. */
  lemma {:induction false} LabelBindingsKeys(instructions: seq<string>, name: string)
    ensures name in Keys(LabelBindings(instructions)) ==>
      exists i :: 0 <= i < |instructions| && IsLabel(instructions[i]) && Inner(instructions[i]) == name
    decreases |instructions|
  {
    if instructions != [] {
      var prefix := instructions[..|instructions| - 1];
      KeysAppend(LabelBindings(prefix), [(Inner(Last(instructions)), |NonLabels(prefix)|)]);
      LabelBindingsKeys(prefix, name);
      if name in Keys(LabelBindings(prefix)) {
        var i :| 0 <= i < |prefix| && IsLabel(prefix[i]) && Inner(prefix[i]) == name;
        assert instructions[i] == prefix[i];
      } else if name in Keys(LabelBindings(instructions)) {
        assert instructions[|instructions| - 1] == Last(instructions);
      }
    }
  }

  /** With fresh label names the first pass appends exactly the label
      bindings to the table. */
  lemma {:induction false} Pass1Fresh(instructions: seq<string>, table: Table<nat>)
    requires FreshLabels(instructions, table)
    ensures Pass1(instructions, table) == table + LabelBindings(instructions)
    decreases |instructions|
  {
    if instructions == [] {
      assert table + [] == table;
    } else {
      var prefix := instructions[..|instructions| - 1];
      assert FreshLabels(prefix, table);
      Pass1Fresh(prefix, table);
      var x := Last(instructions);
      if IsLabel(x) {
        var name := Inner(x);
        KeysAppend(table, LabelBindings(prefix));
        LabelBindingsKeys(prefix, name);
        assert name !in Keys(table);
        assert name !in Keys(LabelBindings(prefix));
        BindOrder<nat>(table + LabelBindings(prefix), name, |NonLabels(prefix)|);
      }
    }
  }

  // ---------------------------------------------------------------------
  // Label deletion

  /** Deleting, in order, the positions the label bindings of `labels`
      record removes exactly the label lines of `labels`, whatever follows
      them: each position is that of the next label once the labels before
      it are gone. */
  lemma {:induction false} DeleteLabelBindings(labels: seq<string>, rest: seq<string>)
    ensures DeleteAll(labels + rest, Values(LabelBindings(labels))) == Some(NonLabels(labels) + rest)
    decreases |labels|
  {
    if labels == [] {
      assert labels + rest == rest;
    } else {
      var prefix := labels[..|labels| - 1];
      var x := Last(labels);
      assert labels + rest == prefix + ([x] + rest);
      DeleteLabelBindings(prefix, [x] + rest);
      if IsLabel(x) {
        DeleteLastLabel(labels, rest);
      } else {
        assert NonLabels(prefix) + ([x] + rest) == NonLabels(labels) + rest;
      }
    }
  }

  /** The deletion step for a label at the end of `labels`: its binding is
      the position it takes in the non-label lines before it. */
  lemma DeleteLastLabel(labels: seq<string>, rest: seq<string>)
    requires labels != [] && IsLabel(Last(labels))
    requires DeleteAll(labels[..|labels| - 1] + ([Last(labels)] + rest), Values(LabelBindings(labels[..|labels| - 1])))
      == Some(NonLabels(labels[..|labels| - 1]) + ([Last(labels)] + rest))
    ensures DeleteAll(labels + rest, Values(LabelBindings(labels))) == Some(NonLabels(labels) + rest)
  {
    var prefix := labels[..|labels| - 1];
    var x := Last(labels);
    var n: nat := |NonLabels(prefix)|;
    assert Values(LabelBindings(labels)) == Values(LabelBindings(prefix)) + [n] by {
      KeysAppend(LabelBindings(prefix), [(Inner(x), n)]);
    }
    assert labels + rest == prefix + ([x] + rest);
    var after := NonLabels(prefix) + ([x] + rest);
    DeleteAllLast(labels + rest, Values(LabelBindings(prefix)), n, after);
    assert DeleteAt(after, n) == Some(NonLabels(prefix) + rest) by {
      assert after[..n] + after[n + 1..] == NonLabels(prefix) + rest;
    }
    assert NonLabels(labels) == NonLabels(prefix);
    assert DeleteAll(labels + rest, Values(LabelBindings(labels))) == DeleteAt(after, n);
  }

  /** The deletion loop's last step deletes from what the earlier steps left. */
  lemma DeleteAllLast(instructions: seq<string>, before: seq<nat>, value: nat, left: seq<string>)
    requires DeleteAll(instructions, before) == Some(left)
    ensures DeleteAll(instructions, before + [value]) == DeleteAt(left, value)
  {
    assert (before + [value])[..|before|] == before;
  }

  /** With fresh label names, the first pass and the deletion loop leave the
      label bindings after the given table and the non-label lines. */
  lemma FirstPassAndDeletion(instructions: seq<string>, table: Table<nat>)
    requires FreshLabels(instructions, table)
    ensures Pass1(instructions, table) == table + LabelBindings(instructions)
    ensures DeleteAll(instructions, Drop(Values(Pass1(instructions, table)), |table|)) == Some(NonLabels(instructions))
  {
    Pass1Fresh(instructions, table);
    KeysAppend(table, LabelBindings(instructions));
    var values := Values(table + LabelBindings(instructions));
    assert Drop(values, |table|) == Values(LabelBindings(instructions));
    DeleteLabelBindings(instructions, []);
    assert instructions + [] == instructions;
    assert NonLabels(instructions) + [] == NonLabels(instructions);
  }

  /** A label names the address of the first non-label line after it. */
  lemma LabelTarget(instructions: seq<string>, k: nat, j: nat)
    requires k < j < |instructions| && IsLabel(instructions[k]) && !IsLabel(instructions[j])
    requires forall i :: k <= i < j ==> IsLabel(instructions[i])
    ensures |NonLabels(instructions[..k])| < |NonLabels(instructions)|
    ensures NonLabels(instructions)[|NonLabels(instructions[..k])|] == instructions[j]
  {
    AllLabels(instructions[k..j]);
    NonLabelsAppend(instructions[..k], instructions[k..j]);
    assert instructions[..j] == instructions[..k] + instructions[k..j];
    assert NonLabels(instructions[..j + 1]) == NonLabels(instructions[..j]) + [instructions[j]] by {
      assert instructions[..j + 1][..j] == instructions[..j];
    }
    NonLabelsAppend(instructions[..j + 1], instructions[j + 1..]);
    assert instructions == instructions[..j + 1] + instructions[j + 1..];
  }

  /** Label lines only: no non-label lines. */
  lemma {:induction false} AllLabels(instructions: seq<string>)
    requires forall i :: 0 <= i < |instructions| ==> IsLabel(instructions[i])
    ensures NonLabels(instructions) == []
    decreases |instructions|
  {
    if instructions != [] {
      AllLabels(instructions[..|instructions| - 1]);
    }
  }

  // ---------------------------------------------------------------------
  // The second pass against one final table

  /** `instruction` is an A-instruction whose operand is a symbol that is
      neither in `table` nor among the variables `seen` so far. */
  predicate Introduces(instruction: string, table: Table<nat>, seen: seq<string>) {
    && StartsWith(instruction, "@")
    && !IsDecimal(Operand(instruction))
    && Operand(instruction) !in Keys(table)
    && Operand(instruction) !in seen
  }

  /** The variables `seen` so far, extended by the one `instruction`
      introduces, if any. */
  function NextVariables(instruction: string, table: Table<nat>, seen: seq<string>): seq<string>
  {
    if Introduces(instruction, table, seen) then seen + [Operand(instruction)] else seen
  }

  /** The variables of `instructions`: the symbols not bound in `table`, in
      the order of their first use. */
  function NewVariables(instructions: seq<string>, table: Table<nat>): (vars: seq<string>)
    ensures |vars| <= |instructions|
  {
    if instructions == [] then []
    else
      NextVariables(Last(instructions), table, NewVariables(instructions[..|instructions| - 1], table))
  }

  /** Consecutive addresses from `next` for the names `vars`. */
  function Allocate(vars: seq<string>, next: nat): Table<nat>
  {
    seq(|vars|, i requires 0 <= i < |vars| => (vars[i], next + i))
  }

  /** The symbol table the second pass ends with when every instruction
      translates: `table` followed by the variables at `next`, `next + 1`, … */
  function FinalTable(instructions: seq<string>, table: Table<nat>, next: nat): Table<nat>
  {
    table + Allocate(NewVariables(instructions, table), next)
  }

  /** The machine word of one instruction when every symbol reads from
      `table`: the address of an A-instruction, the three table codes of a
      C-instruction. */
  function Encode(instruction: string, table: Table<nat>): (w: Option<string>)
    ensures StartsWith(instruction, "@") && w.Some? ==>
      |w.value| >= 16 && IsBits(w.value) && w.value[0] == '0'
    ensures !StartsWith(instruction, "@") && w.Some? ==>
      |w.value| == 16 && IsBits(w.value) && w.value[..3] == "111"
    ensures StartsWith(instruction, "@") ==>
      (w.None? <==> !IsDecimal(Operand(instruction)) && Operand(instruction) !in Keys(table))
  {
    if StartsWith(instruction, "@") then
      var operand := Operand(instruction);
      if IsDecimal(operand) then Some(AWord(DecimalValue(operand)))
      else match Lookup(table, operand)
        case None => None
        case Some(address) => Some(AWord(address))
    else CWord(Parse(instruction))
  }

  /** The word of each instruction against `table`, one for one. */
  function Encodings(instructions: seq<string>, table: Table<nat>): (ws: seq<Option<string>>)
    ensures |ws| == |instructions|
  {
    seq(|instructions|, i requires 0 <= i < |instructions| => Encode(instructions[i], table))
  }

  /** Every instruction encoded against the same table; `None` if any of
      them fails. */
  function EncodeAll(instructions: seq<string>, table: Table<nat>): Option<seq<string>>
  {
    Collect(Encodings(instructions, table))
  }

  /** `EncodeAll` succeeds exactly when every instruction encodes, and then
      gives one word per instruction, in order. */
  lemma EncodeAllWords(instructions: seq<string>, table: Table<nat>)
    ensures EncodeAll(instructions, table).Some? <==>
      forall i :: 0 <= i < |instructions| ==> Encode(instructions[i], table).Some?
    ensures EncodeAll(instructions, table).Some? ==>
      var words := EncodeAll(instructions, table).value;
      |words| == |instructions| &&
      forall i :: 0 <= i < |instructions| ==> words[i] == Encode(instructions[i], table).value
  {
    var ws := Encodings(instructions, table);
    CollectValues(ws);
    forall i | 0 <= i < |instructions|
      ensures ws[i] == Encode(instructions[i], table)
    {
    }
  }

  /** `EncodeAll` extended by one instruction. */
  lemma EncodeAllLast(instructions: seq<string>, table: Table<nat>)
    requires instructions != []
    ensures EncodeAll(instructions, table) ==
      Snoc(EncodeAll(instructions[..|instructions| - 1], table), Encode(Last(instructions), table))
  {
    var ws := Encodings(instructions, table);
    assert ws[..|ws| - 1] == Encodings(instructions[..|instructions| - 1], table);
    assert ws[|ws| - 1] == Encode(Last(instructions), table);
  }

  lemma AllocateKeys(vars: seq<string>, next: nat)
    ensures Keys(Allocate(vars, next)) == vars
  {
  }

  /** An A-instruction naming a symbol the table lacks binds it to the next
      free address and reads that address, as its encoding against the
      extended table (and anything after it) does. */
  lemma TranslateFresh(instruction: string, table: Table<nat>, next: nat, extra: Table<nat>)
    requires StartsWith(instruction, "@") && !IsDecimal(Operand(instruction))
    requires Operand(instruction) !in Keys(table)
    ensures var after := table + [(Operand(instruction), next)];
      Translate(instruction, table, next) == Translation(Encode(instruction, after + extra), after, next + 1)
  {
    var operand := Operand(instruction);
    var entry := (operand, next);
    BindOrder<nat>(table, operand, next);
    var tail := [entry] + extra;
    assert (table + [entry]) + extra == table + tail;
    LookupAppend(table, tail, operand);
    assert tail[0] == entry;
  }

  /** Any other instruction leaves the table as it is and gives the word
      its encoding against the table (and anything after it) gives. */
  lemma TranslateKnown(instruction: string, table: Table<nat>, next: nat, extra: Table<nat>)
    requires !(StartsWith(instruction, "@") && !IsDecimal(Operand(instruction)) && Operand(instruction) !in Keys(table))
    ensures Translate(instruction, table, next) == Translation(Encode(instruction, table + extra), table, next)
  {
    if StartsWith(instruction, "@") && !IsDecimal(Operand(instruction)) {
      LookupAppend(table, extra, Operand(instruction));
    }
  }

  /** One step of the second pass, started from the final table of the
      instructions before it, reads and writes that table as the final table
      of the longer sequence does. */
  lemma TranslateStep(instruction: string, current: Table<nat>, n: nat, table: Table<nat>, next: nat, seen: seq<string>, extra: Table<nat>)
    requires current == table + Allocate(seen, next) && n == next + |seen|
    ensures Translate(instruction, current, n)
      == Translation(Encode(instruction, table + Allocate(NextVariables(instruction, table, seen), next) + extra),
                     table + Allocate(NextVariables(instruction, table, seen), next),
                     next + |NextVariables(instruction, table, seen)|)
  {
    assert Keys(current) == Keys(table) + seen by {
      KeysAppend(table, Allocate(seen, next));
      AllocateKeys(seen, next);
    }
    if Introduces(instruction, table, seen) {
      var operand := Operand(instruction);
      assert operand !in Keys(current);
      assert table + Allocate(seen + [operand], next) == current + [(operand, n)] by {
        assert Allocate(seen + [operand], next) == Allocate(seen, next) + [(operand, n)];
      }
      TranslateFresh(instruction, current, n, extra);
    } else {
      assert !(StartsWith(instruction, "@") && !IsDecimal(Operand(instruction)) && Operand(instruction) !in Keys(current));
      TranslateKnown(instruction, current, n, extra);
    }
  }

  /** The final table of a longer sequence extends that of its prefix by
      the variable the last instruction introduces, if any. */
  lemma FinalTableLast(instructions: seq<string>, table: Table<nat>, next: nat)
    requires instructions != []
    ensures NewVariables(instructions, table)
      == NextVariables(Last(instructions), table, NewVariables(instructions[..|instructions| - 1], table))
    ensures FinalTable(instructions, table, next)
      == table + Allocate(NewVariables(instructions, table), next)
    ensures FinalTable(instructions[..|instructions| - 1], table, next)
      == table + Allocate(NewVariables(instructions[..|instructions| - 1], table), next)
    ensures FinalTable(instructions, table, next)[..|FinalTable(instructions[..|instructions| - 1], table, next)|]
      == FinalTable(instructions[..|instructions| - 1], table, next)
  {
  }

  /** Splitting an extension at the end of its prefix. */
  lemma ExtensionSplit(current: Table<nat>, after: Table<nat>, extra: Table<nat>)
    requires |current| <= |after| && after[..|current|] == current
    ensures current + (after[|current|..] + extra) == after + extra
  {
    assert after == after[..|current|] + after[|current|..];
  }

  /** A step of the second pass appends the encoding of the instruction to
      the words so far, given that its translation reads as that
      encoding. */
  lemma StepAppends(st: Pass2State, instruction: string, word: Option<string>, table: Table<nat>, nextFree: nat)
    requires st.words.Some? ==> Translate(instruction, st.table, st.nextFree) == Translation(word, table, nextFree)
    ensures Pass2Step(st, instruction).words == Snoc(st.words, word)
    ensures Pass2Step(st, instruction).words.Some? ==>
      Pass2Step(st, instruction).table == table && Pass2Step(st, instruction).nextFree == nextFree
  {
  }

  /** A step of the second pass from the final table of the instructions
      before it appends the encoding against the next final table. */
  lemma Pass2StepFinal(st: Pass2State, instruction: string, table: Table<nat>, next: nat, seen: seq<string>, extra: Table<nat>)
    requires st.words.Some? ==> st.table == table + Allocate(seen, next) && st.nextFree == next + |seen|
    ensures Pass2Step(st, instruction).words
      == Snoc(st.words, Encode(instruction, table + Allocate(NextVariables(instruction, table, seen), next) + extra))
    ensures Pass2Step(st, instruction).words.Some? ==>
      && Pass2Step(st, instruction).table == table + Allocate(NextVariables(instruction, table, seen), next)
      && Pass2Step(st, instruction).nextFree == next + |NextVariables(instruction, table, seen)|
  {
    if st.words.Some? {
      var seen' := NextVariables(instruction, table, seen);
      var after := table + Allocate(seen', next);
      TranslateStep(instruction, st.table, st.nextFree, table, next, seen, extra);
      StepAppends(st, instruction, Encode(instruction, after + extra), after, next + |seen'|);
    }
  }

  /** The second pass from `table` and `next` gives the words `EncodeAll`
      gives against the final table (or any extension of it), and when it
      succeeds it ends with that table and with `next` advanced by the
      number of variables. */
  lemma {:induction false} Pass2Encodes(instructions: seq<string>, table: Table<nat>, next: nat, extra: Table<nat>)
    ensures
      var st := Pass2(instructions, Pass2State(table, next, Some([])));
      && st.words == EncodeAll(instructions, FinalTable(instructions, table, next) + extra)
      && (st.words.Some? ==>
            st.table == FinalTable(instructions, table, next)
            && st.nextFree == next + |NewVariables(instructions, table)|)
    decreases |instructions|
  {
    if instructions == [] {
      assert FinalTable(instructions, table, next) == table;
    } else {
      var prefix := instructions[..|instructions| - 1];
      var x := Last(instructions);
      var seen := NewVariables(prefix, table);
      var current := FinalTable(prefix, table, next);
      var after := FinalTable(instructions, table, next);
      FinalTableLast(instructions, table, next);
      ExtensionSplit(current, after, extra);
      Pass2Encodes(prefix, table, next, after[|current|..] + extra);
      Pass2StepFinal(Pass2(prefix, Pass2State(table, next, Some([]))), x, table, next, seen, extra);
      EncodeAllLast(instructions, after + extra);
    }
  }

  /** The variables are distinct names, none bound in `table` or decimal. */
  lemma {:induction false} NewVariablesDistinct(instructions: seq<string>, table: Table<nat>)
    ensures forall i, j :: 0 <= i < j < |NewVariables(instructions, table)| ==>
      NewVariables(instructions, table)[i] != NewVariables(instructions, table)[j]
    ensures forall i :: 0 <= i < |NewVariables(instructions, table)| ==>
      NewVariables(instructions, table)[i] !in Keys(table) && !IsDecimal(NewVariables(instructions, table)[i])
    decreases |instructions|
  {
    if instructions != [] {
      var seen := NewVariables(instructions[..|instructions| - 1], table);
      NewVariablesDistinct(instructions[..|instructions| - 1], table);
      var x := Last(instructions);
      if Introduces(x, table, seen) {
        var vars := seen + [Operand(x)];
        assert NewVariables(instructions, table) == vars;
        forall i, j | 0 <= i < j < |vars|
          ensures vars[i] != vars[j]
        {
          assert vars[i] == seen[i];
          if j < |seen| {
            assert vars[j] == seen[j];
          }
        }
        forall i | 0 <= i < |vars|
          ensures vars[i] !in Keys(table) && !IsDecimal(vars[i])
        {
          if i < |seen| {
            assert vars[i] == seen[i];
          }
        }
      }
    }
  }

  /** A name is a variable exactly when some A-instruction uses it as a
      symbol and `table` does not bind it. */
  lemma {:induction false} NewVariablesUsed(instructions: seq<string>, table: Table<nat>, name: string)
    ensures name in NewVariables(instructions, table) <==>
      && !IsDecimal(name) && name !in Keys(table)
      && exists i :: 0 <= i < |instructions| && StartsWith(instructions[i], "@") && Operand(instructions[i]) == name
    decreases |instructions|
  {
    if instructions != [] {
      var prefix := instructions[..|instructions| - 1];
      var x := Last(instructions);
      assert x == instructions[|instructions| - 1];
      NewVariablesUsed(prefix, table, name);
      if exists i :: 0 <= i < |prefix| && StartsWith(prefix[i], "@") && Operand(prefix[i]) == name {
        var i :| 0 <= i < |prefix| && StartsWith(prefix[i], "@") && Operand(prefix[i]) == name;
        assert instructions[i] == prefix[i];
      }
      if exists i :: 0 <= i < |instructions| && StartsWith(instructions[i], "@") && Operand(instructions[i]) == name {
        var i :| 0 <= i < |instructions| && StartsWith(instructions[i], "@") && Operand(instructions[i]) == name;
        if i < |prefix| {
          assert prefix[i] == instructions[i];
        }
      }
    }
  }

  /** With distinct names, the `j`-th allocated name reads `next + j`. */
  lemma AllocateLookup(vars: seq<string>, next: nat, j: nat)
    requires forall a, b :: 0 <= a < b < |vars| ==> vars[a] != vars[b]
    requires j < |vars|
    ensures Lookup(Allocate(vars, next), vars[j]) == Some(next + j)
  {
    var addresses := Allocate(vars, next);
    assert Lookup(addresses, addresses[j].0) == Some(addresses[j].1) by {
      AllocateDistinct(vars, next);
      LookupDistinct(addresses, j);
    }
    AllocateEntry(vars, next, j);
    assert Lookup(addresses, vars[j]) == Lookup(addresses, addresses[j].0);
  }

  /** Distinct names get distinct keys. */
  lemma AllocateDistinct(vars: seq<string>, next: nat)
    requires forall a, b :: 0 <= a < b < |vars| ==> vars[a] != vars[b]
    ensures DistinctKeys(Allocate(vars, next))
  {
    var addresses := Allocate(vars, next);
    forall a, b | 0 <= a < b < |addresses|
      ensures addresses[a].0 != addresses[b].0
    {
      assert addresses[a].0 == vars[a] && addresses[b].0 == vars[b];
    }
  }

  /** The `i`-th allocation binds the `i`-th name to the `i`-th address. */
  lemma AllocateEntry(vars: seq<string>, next: nat, i: nat)
    requires i < |vars|
    ensures Allocate(vars, next)[i].0 == vars[i] && Allocate(vars, next)[i].1 == next + i
  {
  }

  /** In the final table every name of `table` keeps its value, and the
      `j`-th variable reads `next + j`. */
  lemma FinalTableLookup(instructions: seq<string>, table: Table<nat>, next: nat, name: string)
    ensures name in Keys(table) ==> Lookup(FinalTable(instructions, table, next), name) == Lookup(table, name)
    ensures forall j :: 0 <= j < |NewVariables(instructions, table)| && NewVariables(instructions, table)[j] == name ==>
      Lookup(FinalTable(instructions, table, next), name) == Some(next + j)
  {
    var vars := NewVariables(instructions, table);
    LookupAppend(table, Allocate(vars, next), name);
    NewVariablesDistinct(instructions, table);
    forall j | 0 <= j < |vars| && vars[j] == name
      ensures Lookup(FinalTable(instructions, table, next), name) == Some(next + j)
    {
      AllocateLookup(vars, next, j);
    }
  }

  // ---------------------------------------------------------------------
  // The whole assembler

  /** On a program whose labels have fresh, distinct names, `assemble`
      from the predefined symbols encodes every non-label line against one
      table: the predefined symbols, then each label bound to the address of
      the instruction after it, then the variables from address 16 on in the
      order of their first use. It gives one word per non-label line, and it
      leaves that table behind. */
  lemma AssembleEncodes(content: string)
    requires FreshLabels(CleanLines(Split(content, "\n")), PredefinedSymbols)
    ensures
      var instructions := CleanLines(Split(content, "\n"));
      var code := NonLabels(instructions);
      var table := FinalTable(code, PredefinedSymbols + LabelBindings(instructions), 16);
      var outcome := AssembleContent(content, PredefinedSymbols);
      && outcome.words == EncodeAll(code, table)
      && (outcome.words.Some? ==> outcome.table == table && |outcome.words.value| == |code|)
  {
    AssembleLines(CleanLines(Split(content, "\n")));
  }

  /** The passes of `assemble` over cleaned lines with fresh labels. */
  lemma AssembleLines(instructions: seq<string>)
    requires FreshLabels(instructions, PredefinedSymbols)
    ensures Pass1(instructions, PredefinedSymbols) == PredefinedSymbols + LabelBindings(instructions)
    ensures DeleteAll(instructions, Drop(Values(Pass1(instructions, PredefinedSymbols)), NumberOfPredefinedSymbols))
      == Some(NonLabels(instructions))
    ensures
      var code := NonLabels(instructions);
      var table := FinalTable(code, PredefinedSymbols + LabelBindings(instructions), 16);
      var st := Pass2(code, Pass2State(PredefinedSymbols + LabelBindings(instructions), 16, Some([])));
      && st.words == EncodeAll(code, table)
      && (st.words.Some? ==> st.table == table && |st.words.value| == |code|)
  {
    var labelled := PredefinedSymbols + LabelBindings(instructions);
    var code := NonLabels(instructions);
    var table := FinalTable(code, labelled, 16);
    PredefinedSymbolsFacts();
    FirstPassAndDeletion(instructions, PredefinedSymbols);
    Pass2Encodes(code, labelled, 16, []);
    assert table + [] == table;
    EncodeAllWords(code, table);
  }
}
