/** The DWARF line program: the writer's choice between special and standard
    opcodes, against a decoder in the sense of sections 6.2.2, 6.2.5 and 7.6 of
    the DWARF Debugging Information Format, version 5. */
module LineProgram {
  const LINE_BASE: int := -5
  const LINE_RANGE: int := 14
  const OPCODE_BASE: int := 13
  const DW_LNS_copy: nat := 1
  const DW_LNS_advance_pc: nat := 2
  const DW_LNS_advance_line: nat := 3
  const DW_LNS_set_file: nat := 4
  const ADDRESS_SPACE: nat := 0x1_0000_0000_0000_0000

  type Byte = b: nat | b < 256

  // ---- LEB128 ----------------------------------------------------------------

  function Uleb(v: nat): (r: seq<Byte>)
    ensures r != []
  {
    if v < 128 then [v] else [128 + v % 128] + Uleb(v / 128)
  }

  function Sleb(v: int): (r: seq<Byte>)
    ensures r != []
    decreases if v < 0 then -v else v
  {
    var last := v % 128;
    if v / 128 == (if v < 0 then -1 else 0) && (last >= 64 <==> v < 0) then [last]
    else [128 + last] + Sleb(v / 128)
  }

  datatype Read<T> = Got(v: T, len: nat) | Short

  function ReadUleb(s: seq<Byte>): (r: Read<nat>)
    ensures r.Got? ==> 0 < r.len <= |s|
  {
    if s == [] then Short
    else if s[0] < 128 then Got(s[0], 1)
    else match ReadUleb(s[1..]) case Short => Short case Got(v, n) => Got(s[0] - 128 + 128 * v, n + 1)
  }

  function ReadSleb(s: seq<Byte>): (r: Read<int>)
    ensures r.Got? ==> 0 < r.len <= |s|
  {
    if s == [] then Short
    else if s[0] < 64 then Got(s[0], 1)
    else if s[0] < 128 then Got(s[0] as int - 128, 1)
    else match ReadSleb(s[1..]) case Short => Short case Got(v, n) => Got(s[0] as int - 128 + 128 * v, n + 1)
  }

  lemma {:induction false} UlebReads(v: nat)
    ensures ReadUleb(Uleb(v)) == Got(v, |Uleb(v)|)
  {
    if v >= 128 {
      UlebReads(v / 128);
      assert Uleb(v)[1..] == Uleb(v / 128);
    }
  }

  lemma {:induction false} SlebReads(v: int)
    ensures ReadSleb(Sleb(v)) == Got(v, |Sleb(v)|)
    decreases if v < 0 then -v else v
  {
    var last := v % 128;
    if !(v / 128 == (if v < 0 then -1 else 0) && (last >= 64 <==> v < 0)) {
      SlebReads(v / 128);
      assert Sleb(v)[1..] == Sleb(v / 128);
    }
  }

  lemma {:induction false} ReadsAgree(a: seq<Byte>, b: seq<Byte>)
    ensures ReadUleb(a).Got? ==> ReadUleb(a + b) == ReadUleb(a)
    ensures ReadSleb(a).Got? ==> ReadSleb(a + b) == ReadSleb(a)
  {
    if a != [] {
      ReadsAgree(a[1..], b);
      assert (a + b)[1..] == a[1..] + b;
    }
  }

  // ---- the decoder -------------------------------------------------------------

  datatype Op = Special(n: nat) | Copy | AdvancePc(delta: nat) | AdvanceLine(lines: int) | SetFile(file: nat)

  datatype Registers = Registers(address: nat, file: nat, line: int)

  /** The operation at the head of the program, and its length. */
  function NextOp(s: seq<Byte>): (r: Read<Op>)
    requires s != []
    ensures r.Got? ==> 0 < r.len <= |s|
  {
    if s[0] >= OPCODE_BASE then Got(Special(s[0]), 1)
    else if s[0] == DW_LNS_copy then Got(Copy, 1)
    else if s[0] == DW_LNS_advance_pc then
      (match ReadUleb(s[1..]) case Got(v, n) => Got(AdvancePc(v), n + 1) case Short => Short)
    else if s[0] == DW_LNS_advance_line then
      (match ReadSleb(s[1..]) case Got(v, n) => Got(AdvanceLine(v), n + 1) case Short => Short)
    else if s[0] == DW_LNS_set_file then
      (match ReadUleb(s[1..]) case Got(v, n) => Got(SetFile(v), n + 1) case Short => Short)
    else Short
  }

  function Move(address: nat, delta: int): nat { (address + delta) % ADDRESS_SPACE }

  function Execute(op: Op, r: Registers): Registers {
    match op
    case Special(n) =>
      var adjusted := n - OPCODE_BASE;
      Registers(Move(r.address, adjusted / LINE_RANGE), r.file, r.line + LINE_BASE + adjusted % LINE_RANGE)
    case Copy => r
    case AdvancePc(d) => r.(address := Move(r.address, d))
    case AdvanceLine(d) => r.(line := r.line + d)
    case SetFile(f) => r.(file := f)
  }

  predicate Appends(op: Op) { op.Special? || op.Copy? }

  datatype Decoded = Decoded(r: Registers, rows: seq<Registers>) | Malformed

  function Decode(s: seq<Byte>, r: Registers): Decoded
    decreases |s|
  {
    if s == [] then Decoded(r, [])
    else
      match NextOp(s)
      case Short => Malformed
      case Got(op, n) =>
        var next := Execute(op, r);
        match Decode(s[n..], next)
        case Malformed => Malformed
        case Decoded(end, rows) => Decoded(end, (if Appends(op) then [next] else []) + rows)
  }

  lemma NextOpAgrees(a: seq<Byte>, b: seq<Byte>)
    requires a != [] && NextOp(a).Got?
    ensures NextOp(a + b) == NextOp(a)
  {
    hide ReadUleb, ReadSleb;
    ReadsAgree(a[1..], b);
    assert (a + b)[1..] == a[1..] + b;
  }

  /** What one operation contributes before the rest is decoded. */
  function Before(op: Op, next: Registers, rest: Decoded): Decoded {
    match rest
    case Malformed => Malformed
    case Decoded(end, rows) => Decoded(end, (if Appends(op) then [next] else []) + rows)
  }

  lemma DecodeHead(s: seq<Byte>, r: Registers)
    requires s != [] && NextOp(s).Got?
    ensures var op, n := NextOp(s).v, NextOp(s).len;
            Decode(s, r) == Before(op, Execute(op, r), Decode(s[n..], Execute(op, r)))
  {
    hide NextOp, Execute;
  }

  function Joined(x: Decoded, y: Decoded): Decoded
    requires x.Decoded?
  {
    match y case Malformed => Malformed case Decoded(end, rows) => Decoded(end, x.rows + rows)
  }

  lemma BeforeJoined(op: Op, next: Registers, x: Decoded, y: Decoded)
    requires x.Decoded?
    ensures Before(op, next, Joined(x, y)) == Joined(Before(op, next, x), y)
  {
    if y.Decoded? {
      var first := if Appends(op) then [next] else [];
      assert first + (x.rows + y.rows) == (first + x.rows) + y.rows;
    }
  }

  lemma {:induction false} DecodeAppend(a: seq<Byte>, b: seq<Byte>, r: Registers)
    requires Decode(a, r).Decoded?
    ensures Decode(a + b, r) == Joined(Decode(a, r), Decode(b, Decode(a, r).r))
    decreases |a|
  {
    if a == [] {
      assert a + b == b;
    } else {
      assert NextOp(a).Got?;
      hide NextOp, Execute, Decode;
      var op, n := NextOp(a).v, NextOp(a).len;
      NextOpAgrees(a, b);
      DecodeHead(a, r);
      DecodeHead(a + b, r);
      assert (a + b)[n..] == a[n..] + b;
      DecodeAppend(a[n..], b, Execute(op, r));
      BeforeJoined(op, Execute(op, r), Decode(a[n..], Execute(op, r)), Decode(b, Decode(a, r).r));
    }
  }

  /** One operation alone. */
  lemma DecodeOne(s: seq<Byte>, op: Op, r: Registers)
    requires s != [] && NextOp(s) == Got(op, |s|)
    ensures Decode(s, r) == Decoded(Execute(op, r), if Appends(op) then [Execute(op, r)] else [])
  {
    assert s[|s|..] == [];
    assert Decode([], Execute(op, r)) == Decoded(Execute(op, r), []);
  }

  // ---- the writer ----------------------------------------------------------------

  /** Arithmetic of C's int. */
  function Wrap32(x: int): (r: int)
    ensures -0x8000_0000 <= r < 0x8000_0000 && (x - r) % 0x1_0000_0000 == 0
  {
    (x + 0x8000_0000) % 0x1_0000_0000 - 0x8000_0000
  }

  function Opcode(lenPc: int, lenLine: int): int { lenPc * LINE_RANGE + lenLine + OPCODE_BASE - LINE_BASE }

  predicate ShortLine(lenLine: int) { LINE_BASE <= lenLine <= OPCODE_BASE + LINE_BASE }

  predicate IsSpecial(n: int) { OPCODE_BASE <= n <= 255 }

  /** The operations cprime_debug_line writes for a step of lenPc and lenLine. */
  function StepOps(lenPc: int, lenLine: int): seq<Op> {
    var n := Wrap32(Opcode(lenPc, lenLine));
    if lenPc != 0 && ShortLine(lenLine) && IsSpecial(n) then [Special(n)]
    else PcOps(lenPc) + LineOps(lenLine)
  }

  function PcOps(lenPc: int): seq<Op> {
    var n := Wrap32(Opcode(lenPc, 0));
    if lenPc == 0 then [] else if IsSpecial(n) then [Special(n)] else [AdvancePc(lenPc % ADDRESS_SPACE)]
  }

  function LineOps(lenLine: int): seq<Op> {
    var n := Opcode(0, lenLine);
    if lenLine == 0 then []
    else if ShortLine(lenLine) && IsSpecial(n) then [Special(n)]
    else [AdvanceLine(lenLine), Special(OPCODE_BASE - LINE_BASE)]
  }

  function ExecuteAll(ops: seq<Op>, r: Registers): Registers {
    if ops == [] then r else ExecuteAll(ops[1..], Execute(ops[0], r))
  }

  function RowsOf(ops: seq<Op>, r: Registers): seq<Registers> {
    if ops == [] then []
    else (if Appends(ops[0]) then [Execute(ops[0], r)] else []) + RowsOf(ops[1..], Execute(ops[0], r))
  }

  /** The step is too long for the int the opcode is computed in, and the
      wrapped result happens to look like a special opcode. */
  predicate Misled(lenPc: int, lenLine: int) {
    var n, m := Wrap32(Opcode(lenPc, lenLine)), Wrap32(Opcode(lenPc, 0));
    if lenPc == 0 then false
    else if ShortLine(lenLine) && IsSpecial(n) then n != Opcode(lenPc, lenLine)
    else IsSpecial(m) && m != Opcode(lenPc, 0)
  }

  lemma NotMisledNearby(lenPc: int, lenLine: int)
    requires -150_000_000 <= lenPc <= 150_000_000 && -40_000_000 <= lenLine <= 40_000_000
    ensures !Misled(lenPc, lenLine)
  {}

  /** 306783379 code bytes on one line: 14 times that is 10 modulo 2^32. */
  lemma MisledFarAway()
    ensures Misled(306783379, 0)
  {}

  lemma SpecialMoves(lenPc: int, lenLine: int, r: Registers)
    requires ShortLine(lenLine) && IsSpecial(Opcode(lenPc, lenLine))
    ensures lenPc >= 0
    ensures Execute(Special(Opcode(lenPc, lenLine)), r) == r.(address := Move(r.address, lenPc), line := r.line + lenLine)
  {
    var adjusted := Opcode(lenPc, lenLine) - OPCODE_BASE;
    assert adjusted == lenPc * LINE_RANGE + (lenLine - LINE_BASE) && 0 <= lenLine - LINE_BASE < LINE_RANGE;
  }

  lemma MoveMod(a: nat, d: int)
    requires a < ADDRESS_SPACE
    ensures Move(a, d % ADDRESS_SPACE) == Move(a, d) && Move(a, 0) == a
  {}

  /** A special opcode moves the address by at most 17. */
  lemma SpecialIsShort(n: int, r: Registers, lenPc: int)
    requires IsSpecial(n) && (lenPc < 0 || lenPc > 17) && -0x1_0000_0000 < lenPc < 0x1_0000_0000 && r.address < ADDRESS_SPACE
    ensures Execute(Special(n), r).address != Move(r.address, lenPc)
  {
    var d := (n - OPCODE_BASE) / LINE_RANGE;
    assert 0 <= d <= 17;
  }

  lemma RunOne(a: Op, r: Registers)
    ensures ExecuteAll([a], r) == Execute(a, r) && RowsOf([a], r) == if Appends(a) then [Execute(a, r)] else []
  {
    hide Execute;
    assert [a][1..] == [];
    assert ExecuteAll([], Execute(a, r)) == Execute(a, r) && RowsOf([], Execute(a, r)) == [];
  }

  lemma LineStep(lenLine: int, r: Registers)
    requires r.address < ADDRESS_SPACE
    ensures ExecuteAll(LineOps(lenLine), r) == r.(line := r.line + lenLine)
    ensures lenLine != 0 ==> RowsOf(LineOps(lenLine), r) == [r.(line := r.line + lenLine)]
  {
    hide ExecuteAll, RowsOf;
    MoveMod(r.address, 0);
    var r1 := r.(line := r.line + lenLine);
    if lenLine == 0 {
      RunNone(r);
    } else if ShortLine(lenLine) && IsSpecial(Opcode(0, lenLine)) {
      SpecialMoves(0, lenLine, r);
      RunOne(Special(Opcode(0, lenLine)), r);
    } else {
      SpecialMoves(0, 0, r1);
      RunOne(AdvanceLine(lenLine), r);
      RunOne(Special(18), r1);
      ExecuteAppend([AdvanceLine(lenLine)], [Special(18)], r);
      assert LineOps(lenLine) == [AdvanceLine(lenLine)] + [Special(18)];
    }
  }

  lemma RunNone(r: Registers)
    ensures ExecuteAll([], r) == r && RowsOf([], r) == []
  {}

  lemma PcStep(lenPc: int, r: Registers)
    requires r.address < ADDRESS_SPACE && -0x1_0000_0000 < lenPc < 0x1_0000_0000
    ensures var after := ExecuteAll(PcOps(lenPc), r);
            after.file == r.file && after.address < ADDRESS_SPACE
    ensures var m := Wrap32(Opcode(lenPc, 0));
            if lenPc == 0 || !IsSpecial(m) || m == Opcode(lenPc, 0)
            then ExecuteAll(PcOps(lenPc), r) == r.(address := Move(r.address, lenPc))
            else ExecuteAll(PcOps(lenPc), r).address != Move(r.address, lenPc)
  {
    hide Wrap32, Opcode, Execute, ExecuteAll, RowsOf, Move;
    var m := Wrap32(Opcode(lenPc, 0));
    if lenPc == 0 {
      MoveMod(r.address, 0);
      RunNone(r);
    } else if IsSpecial(m) {
      RunOne(Special(m), r);
      KeepsFile(Special(m), r);
      if m == Opcode(lenPc, 0) {
        SpecialMoves(lenPc, 0, r);
      } else {
        WrapsFarOnly(lenPc);
        SpecialIsShort(m, r, lenPc);
      }
    } else {
      var delta := lenPc % ADDRESS_SPACE;
      RunOne(AdvancePc(delta), r);
      KeepsFile(AdvancePc(delta), r);
      MoveMod(r.address, lenPc);
    }
  }

  lemma WrapsFarOnly(lenPc: int)
    ensures IsSpecial(Wrap32(Opcode(lenPc, 0))) && Wrap32(Opcode(lenPc, 0)) != Opcode(lenPc, 0) ==> lenPc < 0 || lenPc > 17
  {}

  lemma KeepsFile(op: Op, r: Registers)
    requires op.Special? || op.AdvancePc?
    ensures Execute(op, r).file == r.file && Execute(op, r).address < ADDRESS_SPACE
    ensures op.AdvancePc? ==> Execute(op, r) == r.(address := Move(r.address, op.delta))
  {}

  lemma {:induction false} ExecuteAppend(a: seq<Op>, b: seq<Op>, r: Registers)
    ensures ExecuteAll(a + b, r) == ExecuteAll(b, ExecuteAll(a, r))
    ensures RowsOf(a + b, r) == RowsOf(a, r) + RowsOf(b, ExecuteAll(a, r))
  {
    if a == [] {
      assert a + b == b;
    } else {
      assert (a + b)[1..] == a[1..] + b;
      ExecuteAppend(a[1..], b, Execute(a[0], r));
    }
  }

  /** One special opcode does the whole step. */
  lemma WholeStep(n: int, lenPc: int, lenLine: int, r: Registers)
    requires lenPc != 0 && ShortLine(lenLine) && IsSpecial(n) && n == Wrap32(Opcode(lenPc, lenLine))
    requires r.address < ADDRESS_SPACE && -0x1_0000_0000 < lenPc < 0x1_0000_0000
    ensures n == Opcode(lenPc, lenLine) ==>
              Execute(Special(n), r) == Registers(Move(r.address, lenPc), r.file, r.line + lenLine)
    ensures n != Opcode(lenPc, lenLine) ==> Execute(Special(n), r).address != Move(r.address, lenPc)
  {
    hide Execute, Move;
    if n == Opcode(lenPc, lenLine) {
      SpecialMoves(lenPc, lenLine, r);
    } else {
      SpecialIsShort(n, r, lenPc);
    }
  }

  /** The pc first, then the line. */
  lemma SplitStep(lenPc: int, lenLine: int, r: Registers)
    requires r.address < ADDRESS_SPACE && -0x1_0000_0000 < lenPc < 0x1_0000_0000
    ensures var end := ExecuteAll(PcOps(lenPc) + LineOps(lenLine), r);
            var m := Wrap32(Opcode(lenPc, 0));
            if lenPc == 0 || !IsSpecial(m) || m == Opcode(lenPc, 0)
            then end == Registers(Move(r.address, lenPc), r.file, r.line + lenLine)
                 && (lenLine != 0 ==> EndsWith(RowsOf(PcOps(lenPc) + LineOps(lenLine), r), end))
            else end.address != Move(r.address, lenPc)
  {
    hide ExecuteAll, RowsOf, Execute, Move, LineOps, PcOps, Wrap32;
    var r1 := ExecuteAll(PcOps(lenPc), r);
    PcStep(lenPc, r);
    ExecuteAppend(PcOps(lenPc), LineOps(lenLine), r);
    LineStep(lenLine, r1);
  }

  predicate EndsWith(rows: seq<Registers>, row: Registers) { rows != [] && rows[|rows| - 1] == row }

  /** The registers follow pc and line exactly when the opcode did not wrap into
      the range of special opcodes; a changed line ends in exactly one row for it. */
  lemma StepIsRight(lenPc: int, lenLine: int, r: Registers)
    requires r.address < ADDRESS_SPACE && -0x1_0000_0000 < lenPc < 0x1_0000_0000
    ensures var end := Registers(Move(r.address, lenPc), r.file, r.line + lenLine);
            && (ExecuteAll(StepOps(lenPc, lenLine), r) == end <==> !Misled(lenPc, lenLine))
            && (!Misled(lenPc, lenLine) && lenLine != 0 ==> EndsWith(RowsOf(StepOps(lenPc, lenLine), r), end))
  {
    hide ExecuteAll, RowsOf, Execute, Move, LineOps, PcOps, Wrap32, Opcode;
    var n := Wrap32(Opcode(lenPc, lenLine));
    if lenPc != 0 && ShortLine(lenLine) && IsSpecial(n) {
      assert StepOps(lenPc, lenLine) == [Special(n)];
      RunOne(Special(n), r);
      WholeStep(n, lenPc, lenLine, r);
    } else {
      SplitStep(lenPc, lenLine, r);
    }
  }

  /** The rows a step of d bytes and l lines adds: one on the old line where a special
      opcode moves the address and the line is out of its reach, and one for the new
      position where the line changed or a special opcode moved the address. */
  function StepRows(d: int, l: int, r: Registers): seq<Registers> {
    var end := Registers(Move(r.address, d), r.file, r.line + l);
    (if 1 <= d <= 16 && !(-5 <= l <= 8) then [end.(line := r.line)] else []) + if l != 0 || 1 <= d <= 16 then [end] else []
  }

  /** Which steps one special opcode does, and which addresses. */
  lemma Reach(d: int, l: int)
    requires -0x8000_0000 < d < 0x8000_0000 && -0x8000_0000 < l < 0x8000_0000 && !Misled(d, l) && d != 0
    ensures var n, m := Wrap32(Opcode(d, l)), Wrap32(Opcode(d, 0));
            && (ShortLine(l) && IsSpecial(n) <==> -5 <= l <= 8 && (1 <= d <= 16 || (d == 17 && l < 0)))
            && (ShortLine(l) && IsSpecial(n) ==> n == Opcode(d, l))
            && (!(ShortLine(l) && IsSpecial(n)) ==> (IsSpecial(m) <==> 1 <= d <= 16) && (IsSpecial(m) ==> m == Opcode(d, 0)))
  {}

  /** A step is one byte exactly where one special opcode, its value as the format has it,
      makes it: the whole step, the line alone, or the address alone. */
  lemma OneByteSteps(d: int, l: int)
    requires -0x8000_0000 < d < 0x8000_0000 && -0x8000_0000 < l < 0x8000_0000 && !Misled(d, l)
    ensures var short := -5 <= l <= 8 && (1 <= d <= 16 || (d == 17 && l < 0) || (d == 0 && l != 0));
            if short then StepOps(d, l) == [Special(14 * d + l + 18)] else forall n :: StepOps(d, l) != [Special(n)]
  {
    hide Wrap32, Misled;
    if d != 0 {
      Reach(d, l);
      hide Opcode;
      assert Opcode(d, l) == 14 * d + l + 18 && Opcode(d, 0) == 14 * d + 18 by { OpcodeIs(d, l); }
      if !(ShortLine(l) && IsSpecial(Wrap32(Opcode(d, l)))) {
        if 1 <= d <= 16 {
          LongLine(l);
        } else {
          assert StepOps(d, l)[0] == AdvancePc(d % ADDRESS_SPACE);
        }
      }
    } else if l != 0 && !ShortLine(l) {
      LongLine(l);
    }
  }

  lemma LongLine(l: int)
    requires !ShortLine(l)
    ensures |LineOps(l)| == 2
  {}

  lemma OpcodeIs(d: int, l: int)
    ensures Opcode(d, l) == 14 * d + l + 18 && Opcode(d, 0) == 14 * d + 18
  {}

  lemma RowsAdded(d: int, l: int, r: Registers)
    requires r.address < ADDRESS_SPACE && -0x8000_0000 < d < 0x8000_0000 && -0x8000_0000 < l < 0x8000_0000 && !Misled(d, l)
    ensures RowsOf(StepOps(d, l), r) == StepRows(d, l, r)
  {
    hide ExecuteAll, RowsOf, Execute, Move, LineOps, PcOps, Wrap32, Opcode, Misled;
    if d != 0 {
      Reach(d, l);
    }
    var n := Wrap32(Opcode(d, l));
    if d != 0 && ShortLine(l) && IsSpecial(n) {
      RunOne(Special(n), r);
      SpecialMoves(d, l, r);
    } else {
      SplitRows(d, l, r);
    }
  }

  lemma SplitRows(d: int, l: int, r: Registers)
    requires r.address < ADDRESS_SPACE && -0x8000_0000 < d < 0x8000_0000 && -0x8000_0000 < l < 0x8000_0000 && !Misled(d, l)
    requires !(d != 0 && ShortLine(l) && IsSpecial(Wrap32(Opcode(d, l))))
    ensures var end := Registers(Move(r.address, d), r.file, r.line + l);
            RowsOf(PcOps(d) + LineOps(l), r) ==
            (if 1 <= d <= 16 then [end.(line := r.line)] else []) + if l != 0 then [end] else []
  {
    hide ExecuteAll, RowsOf, Execute, Move, LineOps, PcOps, Wrap32, Opcode, Misled;
    if d != 0 {
      Reach(d, l);
    }
    PcRows(d, l, r);
    PcStep(d, r);
    var r1 := ExecuteAll(PcOps(d), r);
    ExecuteAppend(PcOps(d), LineOps(l), r);
    LineStep(l, r1);
    NoLineRows(l, r1);
  }

  lemma NoLineRows(l: int, r: Registers)
    ensures l == 0 ==> RowsOf(LineOps(l), r) == []
  {
    RunNone(r);
  }

  lemma PcRows(d: int, l: int, r: Registers)
    requires r.address < ADDRESS_SPACE && -0x8000_0000 < d < 0x8000_0000 && -0x8000_0000 < l < 0x8000_0000 && !Misled(d, l)
    requires !(d != 0 && ShortLine(l) && IsSpecial(Wrap32(Opcode(d, l))))
    ensures RowsOf(PcOps(d), r) == if 1 <= d <= 16 then [r.(address := Move(r.address, d))] else []
  {
    hide ExecuteAll, RowsOf, Execute, Move, Wrap32, Opcode, Misled;
    var n := Wrap32(Opcode(d, 0));
    if d != 0 {
      Reach(d, l);
    }
    if d == 0 {
      RunNone(r);
    } else if IsSpecial(n) {
      RunOne(Special(n), r);
      SpecialMoves(d, 0, r);
    } else {
      RunOne(AdvancePc(d % ADDRESS_SPACE), r);
    }
  }

  // ---- bytes ---------------------------------------------------------------------

  predicate Encodable(op: Op) { op.Special? ==> IsSpecial(op.n) }

  function Code(op: Op): (r: seq<Byte>)
    requires Encodable(op)
    ensures r != []
  {
    match op
    case Special(n) => [n]
    case Copy => [DW_LNS_copy]
    case AdvancePc(d) => [DW_LNS_advance_pc] + Uleb(d)
    case AdvanceLine(d) => [DW_LNS_advance_line] + Sleb(d)
    case SetFile(f) => [DW_LNS_set_file] + Uleb(f)
  }

  ghost predicate AllEncodable(ops: seq<Op>) { forall op :: op in ops ==> Encodable(op) }

  function CodeAll(ops: seq<Op>): seq<Byte>
    requires AllEncodable(ops)
  {
    if ops == [] then [] else Code(ops[0]) + CodeAll(ops[1..])
  }

  lemma CodeReads(op: Op)
    requires Encodable(op)
    ensures NextOp(Code(op)) == Got(op, |Code(op)|)
  {
    match op
    case Special(n) =>
    case Copy =>
    case AdvancePc(d) => UlebReads(d); assert Code(op)[1..] == Uleb(d);
    case AdvanceLine(d) => SlebReads(d); assert Code(op)[1..] == Sleb(d);
    case SetFile(f) => UlebReads(f); assert Code(op)[1..] == Uleb(f);
  }

  /** The decoder does what the operations say. */
  lemma {:induction false} CodeDecodes(ops: seq<Op>, r: Registers)
    requires AllEncodable(ops)
    ensures Decode(CodeAll(ops), r) == Decoded(ExecuteAll(ops, r), RowsOf(ops, r))
  {
    if ops != [] {
      hide NextOp, Execute, Code;
      CodeReads(ops[0]);
      DecodeOne(Code(ops[0]), ops[0], r);
      CodeDecodes(ops[1..], Execute(ops[0], r));
      DecodeAppend(Code(ops[0]), CodeAll(ops[1..]), r);
    }
  }

  lemma {:induction false} CodeAppend(a: seq<Op>, b: seq<Op>)
    requires AllEncodable(a) && AllEncodable(b)
    ensures AllEncodable(a + b) && CodeAll(a + b) == CodeAll(a) + CodeAll(b)
  {
    if a == [] {
      assert a + b == b;
    } else {
      assert (a + b)[1..] == a[1..] + b;
      CodeAppend(a[1..], b);
    }
  }

  lemma CodeOne(op: Op)
    requires Encodable(op)
    ensures AllEncodable([op]) && CodeAll([op]) == Code(op) && CodeAll([]) == []
  {
    assert [op][1..] == [] && Code(op) + [] == Code(op);
  }

  const START := Registers(0, 1, 1)

  class LineWriter {
    var lineData: seq<Byte>
    var curFile: nat
    var lastFile: nat
    var lastPc: int
    var lastLine: int
    var lastLineNum: int // last_line_num
    var newFile: bool

    /** What a reader of the bytes so far has in its registers. */
    ghost predicate Tracks()
      reads this
    {
      && curFile > 0 && 0 <= lastPc < 0x8000_0000 && 0 <= lastLine < 0x8000_0000
      && var d := Decode(lineData, START);
         d.Decoded? && d.r == Registers(lastPc, if lastFile == 0 then START.file else lastFile, lastLine)
    }

    constructor ()
      ensures Tracks() && lineData == [] && lastPc == 0 && lastLine == 1 && lastFile == 0
    {
      lineData, curFile, lastFile, lastPc, lastLine := [], 1, 0, 0, 1;
      lastLineNum, newFile := 0, true;
    }

    method LineOp(op: Byte)
      modifies this`lineData
      ensures lineData == old(lineData) + [op]
    {
      lineData := lineData + [op];
    }

    /** dwarf_uleb128_op */
    method UlebOp(value: nat)
      modifies this`lineData
      ensures lineData == old(lineData) + Uleb(value)
    {
      var v := value;
      while true
        invariant lineData + Uleb(v) == old(lineData) + Uleb(value)
        decreases v
      {
        var byte := v % 128;
        ghost var left := v;
        v := v / 128;
        LineOp(byte + if v != 0 then 128 else 0);
        if v == 0 {
          break;
        }
        assert Uleb(left) == [byte + 128] + Uleb(v);
      }
    }

    /** dwarf_sleb128_op; `value >> 7` rounds down. */
    method SlebOp(value: int)
      modifies this`lineData
      ensures lineData == old(lineData) + Sleb(value)
    {
      var v := value;
      var end := if value < 0 then -1 else 0;
      while true
        invariant lineData + Sleb(v) == old(lineData) + Sleb(value) && (v < 0 <==> value < 0)
        decreases if v < 0 then -v else v
      {
        var byte := v % 128;
        ghost var left := v;
        v := v / 128;
        var more := v != end || (byte >= 64) != (end < 0);
        LineOp(byte + if more then 128 else 0);
        if !more {
          break;
        }
        assert Sleb(left) == [byte + 128] + Sleb(v);
      }
    }

    /** The operations of one call of cprime_debug_line after the file. */
    method WriteStep(lenPc: int, lenLine: int)
      requires -0x8000_0000 < lenPc < 0x8000_0000
      modifies this`lineData
      ensures AllEncodable(StepOps(lenPc, lenLine)) && lineData == old(lineData) + CodeAll(StepOps(lenPc, lenLine))
    {
      hide Wrap32, Opcode, CodeAll, PcOps, LineOps;
      var n := Wrap32(Opcode(lenPc, lenLine));
      if lenPc != 0 && ShortLine(lenLine) && IsSpecial(n) {
        LineOp(n);
        CodeOne(Special(n));
      } else {
        WritePc(lenPc);
        WriteLine(lenLine);
        CodeAppend(PcOps(lenPc), LineOps(lenLine));
      }
    }

    method WritePc(lenPc: int)
      requires -0x8000_0000 < lenPc < 0x8000_0000
      modifies this`lineData
      ensures AllEncodable(PcOps(lenPc)) && lineData == old(lineData) + CodeAll(PcOps(lenPc))
    {
      hide Wrap32, Opcode, CodeAll, Uleb;
      if lenPc == 0 {
        CodeOne(Copy);
        return;
      }
      var n := Wrap32(Opcode(lenPc, 0));
      if IsSpecial(n) {
        LineOp(n);
        CodeOne(Special(n));
      } else {
        var delta: nat := lenPc % ADDRESS_SPACE;
        LineOp(DW_LNS_advance_pc);
        UlebOp(delta);
        CodeOne(AdvancePc(delta));
      }
    }

    method WriteLine(lenLine: int)
      modifies this`lineData
      ensures AllEncodable(LineOps(lenLine)) && lineData == old(lineData) + CodeAll(LineOps(lenLine))
    {
      hide CodeAll, Sleb;
      if lenLine == 0 {
        CodeOne(Copy);
      } else {
        var n := Opcode(0, lenLine);
        if ShortLine(lenLine) && IsSpecial(n) {
          LineOp(n);
          CodeOne(Special(n));
        } else {
          LineOp(DW_LNS_advance_line);
          SlebOp(lenLine);
          LineOp(OPCODE_BASE - LINE_BASE);
          CodeOne(AdvanceLine(lenLine));
          CodeOne(Special(18));
          CodeAppend([AdvanceLine(lenLine)], [Special(18)]);
          assert LineOps(lenLine) == [AdvanceLine(lenLine)] + [Special(18)];
        }
      }
    }

    method WriteFile()
      modifies this`lineData, this`lastFile
      ensures lastFile == curFile
      ensures old(lastFile) == curFile ==> lineData == old(lineData)
      ensures old(lastFile) != curFile ==> lineData == old(lineData) + CodeAll([SetFile(curFile)])
    {
      if curFile != lastFile {
        lastFile := curFile;
        LineOp(DW_LNS_set_file);
        UlebOp(curFile);
        CodeOne(SetFile(curFile));
      }
    }

    /** What a reader has after more operations. */
    lemma After(data: seq<Byte>, ops: seq<Op>)
      requires Decode(data, START).Decoded? && AllEncodable(ops)
      ensures var d, e := Decode(data, START), Decode(data + CodeAll(ops), START);
              && e.Decoded? && e.r == ExecuteAll(ops, d.r) && e.rows == d.rows + RowsOf(ops, d.r)
    {
      CodeDecodes(ops, Decode(data, START).r);
      DecodeAppend(data, CodeAll(ops), START);
    }

    /** cprime_debug_line in a file `f` (none when absent); `file` is the number
        dwarf_file finds for it. The reader's registers are pc, file and line
        afterwards exactly when the step did not mislead, and a changed line has
        its row at the end. */
    method DebugLine(present: bool, line: int, file: nat, ind: int) returns (recorded: bool)
      requires Tracks() && file > 0 && 0 <= line < 0x8000_0000 && 0 <= ind < 0x8000_0000
      modifies this
      ensures recorded <==> present && line != if old(newFile) then 0 else old(lastLineNum)
      ensures newFile <==> old(newFile) && !present
      ensures !recorded ==> Tracks() && lineData == old(lineData) && lastPc == old(lastPc) && lastLine == old(lastLine)
      ensures !recorded ==> lastFile == old(lastFile) && lastLineNum == if present && old(newFile) then 0 else old(lastLineNum)
      ensures recorded ==> lastPc == ind && lastLine == line == lastLineNum && lastFile == curFile
      ensures curFile == if present && old(newFile) then file else old(curFile)
      ensures recorded ==> (Tracks() <==> !Misled(ind - old(lastPc), line - old(lastLine)))
      ensures recorded && Tracks() && line != old(lastLine) ==>
                EndsWith(Decode(lineData, START).rows, Registers(ind, curFile, line))
      ensures Decode(lineData, START).Decoded? && old(Decode(lineData, START).Decoded?)
      ensures old(Decode(lineData, START).rows) <= Decode(lineData, START).rows
      ensures recorded && Tracks() ==>
                Decode(lineData, START).rows ==
                old(Decode(lineData, START).rows)
                + StepRows(ind - old(lastPc), line - old(lastLine), Registers(old(lastPc), curFile, old(lastLine)))
    {
      hide Decode, ExecuteAll, RowsOf, Misled, StepOps, Move, Execute, CodeAll, StepRows;
      recorded := false;
      if !present {
        return;
      }
      if newFile {
        newFile, lastLineNum := false, 0;
        curFile := file;
      }
      if lastLineNum == line {
        return;
      }
      recorded := true;
      lastLineNum := line;
      var lenPc, lenLine := ind - lastPc, line - lastLine;
      ghost var data0, before := lineData, Decode(lineData, START).r;
      WriteFile();
      ghost var data1 := lineData;
      FileSet(data0, data1, before, old(lastFile));
      WriteStep(lenPc, lenLine);
      ghost var ops, r1 := StepOps(lenPc, lenLine), before.(file := curFile);
      After(data1, ops);
      StepIsRight(lenPc, lenLine, r1);
      if !Misled(lenPc, lenLine) {
        RowsAdded(lenPc, lenLine, r1);
      }
      MoveBy(lastPc, ind);
      lastPc, lastLine := ind, line;
    }

    lemma FileSet(data0: seq<Byte>, data1: seq<Byte>, before: Registers, wasFile: nat)
      requires Decode(data0, START).Decoded? && Decode(data0, START).r == before && curFile > 0
      requires before.file == if wasFile == 0 then START.file else wasFile
      requires data1 == data0 + if wasFile == curFile then [] else CodeAll([SetFile(curFile)])
      ensures Decode(data1, START).Decoded? && Decode(data1, START).r == before.(file := curFile)
      ensures Decode(data1, START).rows == Decode(data0, START).rows
    {
      if wasFile == curFile {
        assert data1 == data0;
      } else {
        After(data0, [SetFile(curFile)]);
        RunOne(SetFile(curFile), before);
      }
    }

    lemma MoveBy(pc: int, ind: int)
      requires 0 <= pc < 0x8000_0000 && 0 <= ind < 0x8000_0000
      ensures Move(pc, ind - pc) == ind
    {}
  }
}
