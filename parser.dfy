/**
  `AsmParser`: the split of an instruction into its `dest`, `comp` and `jump`
  fields. The parser object only keeps the fields of the last instruction it
  was given, so it is modelled as a function from the instruction to the
  three fields.
*/
module AsmParser {
  import opened Text

  /** What `dest()`, `comp()` and `jump()` return after parsing. */
  datatype Fields = Fields(dest: string, comp: string, jump: string)

  /** `instruction.split('=')[0]` when there is an `=`, otherwise empty: the
      text before the first `=`. */
  function DestField(instruction: string): (dest: string)
    ensures '=' !in instruction ==> dest == ""
    ensures '=' in instruction ==>
      |dest| < |instruction| && dest == instruction[..|dest|]
      && instruction[|dest|] == '=' && '=' !in dest
  {
    var parts := Split(instruction, "=");
    SplitFirst(instruction, "=");
    AbsentChar(instruction, '=');
    AbsentChar(parts[0], '=');
    if |parts| > 1 then
      OccursAtChar(instruction, '=', Cuts(instruction, "=", 0)[0]);
      parts[0]
    else ""
  }

  /** `instruction.split('=')[-1].split(';')[0]`: a piece of the instruction
      holding neither `=` nor `;`; when it is not empty it occurs in the
      instruction, so splitting the instruction at it gives two pieces or
      more. */
  function CompField(instruction: string): (comp: string)
    ensures '=' !in comp && ';' !in comp
    ensures comp != "" ==> |Split(instruction, comp)| >= 2
  {
    var last := Last(Split(instruction, "="));
    var comp := Split(last, ";")[0];
    SplitLast(instruction, "=");
    SplitFirst(last, ";");
    AbsentInSlice(last, "=", 0, |comp|);
    AbsentChar(comp, '=');
    AbsentChar(comp, ';');
    var a := |instruction| - |last|;
    assert instruction[a..a + |comp|] == comp;
    OccursAtSlice(instruction, comp, a);
    if comp != "" then
      CutsOccurs(instruction, comp, a);
      comp
    else comp
  }

  /** `s[1:]` when `s` starts with `;`. */
  function DropSemicolon(s: string): string
  {
    if StartsWith(s, ";") then s[1..] else s
  }

  /** `instruction.split(comp)[1]` when `comp` is not empty, otherwise empty,
      less one leading `;`. */
  function JumpField(instruction: string): (jump: string)
    ensures CompField(instruction) == "" ==> jump == ""
  {
    var comp := CompField(instruction);
    DropSemicolon(if |comp| > 0 then Split(instruction, comp)[1] else "")
  }

  /** `parse_new_instruction`: an A-instruction sets only `dest`, to `A`; any
      other instruction is split into its three fields. */
  function Parse(instruction: string): (f: Fields)
    ensures StartsWith(instruction, "@") ==> f.dest == "A" && f.comp == "" && f.jump == ""
    ensures !StartsWith(instruction, "@") ==>
      && '=' !in f.comp && ';' !in f.comp && (f.comp == "" ==> f.jump == "")
      && ('=' !in instruction ==> f.dest == "")
      && ('=' in instruction ==>
           |f.dest| < |instruction| && f.dest == instruction[..|f.dest|] && instruction[|f.dest|] == '=' && '=' !in f.dest)
  {
    if StartsWith(instruction, "@") then Fields("A", "", "")
    else Fields(DestField(instruction), CompField(instruction), JumpField(instruction))
  }

  /** The text of a C-instruction in the `dest=comp;jump` grammar, the `dest=`
      and `;jump` parts left out when empty. */
  function Render(f: Fields): string
  {
    DestPart(f) + f.comp + JumpPart(f)
  }

  function DestPart(f: Fields): string
  {
    if f.dest == "" then "" else f.dest + "="
  }

  function JumpPart(f: Fields): string
  {
    if f.jump == "" then "" else ";" + f.jump
  }

  /** The fields of a C-instruction that the split recovers: `comp` is not
      empty, holds neither `=` nor `;` and occurs only once in the rendered
      instruction, no field holds `=`, and the text does not read as an
      A-instruction. */
  predicate Recoverable(f: Fields)
  {
    && f.comp != "" && '=' !in f.dest && '=' !in f.comp && '=' !in f.jump && ';' !in f.comp
    && !StartsWith(Render(f), "@")
    && forall i :: 0 <= i <= |Render(f)| && OccursAt(Render(f), f.comp, i) ==> i == |DestPart(f)|
  }

  // ---------------------------------------------------------------------
  // What the fields are

  /** `comp` runs from just after the last `=` (from the start when there is
      none) up to the first `;` after it (to the end when there is none). */
  lemma CompFieldSpec(s: string, k: nat, m: nat)
    requires k <= m <= |s|
    requires (k == 0 || s[k - 1] == '=') && '=' !in s[k..]
    requires ';' !in s[k..m] && (m == |s| || s[m] == ';')
    ensures CompField(s) == s[k..m]
  {
    SplitLastChar(s, '=', k);
    var last := s[k..];
    assert last[..m - k] == s[k..m];
    SplitFirstChar(last, ';', m - k);
  }

  /** `jump` is the text between the first and the second occurrence of
      `comp` (or the end of the instruction), less one leading `;`. */
  lemma JumpFieldSpec(s: string, p: nat, q: nat)
    requires CompField(s) != ""
    requires OccursAt(s, CompField(s), p)
    requires forall i :: 0 <= i < p ==> !OccursAt(s, CompField(s), i)
    requires p + |CompField(s)| <= q <= |s|
    requires q == |s| || OccursAt(s, CompField(s), q)
    requires forall i :: p + |CompField(s)| <= i < q ==> !OccursAt(s, CompField(s), i)
    ensures JumpField(s) == DropSemicolon(s[p + |CompField(s)|..q])
  {
    var c := CompField(s);
    assert JumpField(s) == DropSemicolon(Split(s, c)[1]);
    SplitSecond(s, c, p, q);
  }

  /** For an instruction written `dest=comp;jump`, `comp;jump` or
      `dest=comp` with recoverable fields, parsing gives the three fields
      back exactly. */
  lemma ParseRender(f: Fields)
    requires Recoverable(f)
    ensures Parse(Render(f)) == f
  {
    RenderDest(f);
    RenderComp(f);
    RenderJump(f);
  }

  lemma RenderDest(f: Fields)
    requires Recoverable(f)
    ensures DestField(Render(f)) == f.dest
  {
    var s := Render(f);
    if f.dest == "" {
      assert '=' !in s;
    } else {
      assert s[|f.dest|] == '=';
      assert s[..|f.dest|] == f.dest;
      var r := DestField(s);
      NotInPrefix(s, '=', |f.dest|, |r|);
      NotInPrefix(s, '=', |r|, |f.dest|);
    }
  }

  lemma RenderComp(f: Fields)
    requires Recoverable(f)
    ensures CompField(Render(f)) == f.comp
  {
    var s := Render(f);
    var k := |DestPart(f)|;
    var m := k + |f.comp|;
    assert s[k..] == f.comp + JumpPart(f);
    assert s[k..m] == f.comp;
    CompFieldSpec(s, k, m);
  }

  lemma RenderJump(f: Fields)
    requires Recoverable(f)
    ensures JumpField(Render(f)) == f.jump
  {
    var s := Render(f);
    var k := |DestPart(f)|;
    RenderComp(f);
    assert s[k..k + |f.comp|] == f.comp;
    OccursAtSlice(s, f.comp, k);
    assert forall i :: 0 <= i < k ==> !OccursAt(s, f.comp, i);
    assert forall i :: k + |f.comp| <= i < |s| ==> !OccursAt(s, f.comp, i);
    JumpFieldSpec(s, k, |s|);
    assert s[k + |f.comp|..] == JumpPart(f);
    assert DropSemicolon(JumpPart(f)) == f.jump;
  }
}
