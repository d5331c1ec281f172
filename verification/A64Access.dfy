/** Addressing of loads and stores on AArch64: which offsets the emitted words really encode. */
module A64Access {
  import opened Isa
  import opened Bits
  import opened Casts
  import opened Flow
  import opened Interpreter
  import opened Ir
  import opened A64Encode
  import opened A64Words
  import opened A64Machine
  import opened A64Decode

  // ---------- decoding, after section C4.1 of the Arm Architecture Reference Manual ----------

  /** A load or store of a register with an unsigned scaled offset. */
  datatype Access = Access(load: bool, width: MemWidth, rt: bv8, rn: bv8, off: int) | NoAccess

  function WidthOfSize(size: bv32): MemWidth {
    if size == 0 then B else if size == 1 then H else if size == 2 then W else DW
  }

  function Shift(width: MemWidth): nat {
    match width
    case B => 0
    case H => 1
    case W => 2
    case DW => 3
  }

  function DecodeAccess(w: bv32): Access {
    if w & 0x3F000000 != 0x39000000 || w & 0x00800000 != 0 then NoAccess
    else
      var width := WidthOfSize(w >> 30);
      Access(w & 0x00400000 != 0, width, FieldD(w), FieldN(w), Pow2(Shift(width)) * FromWord((w >> 10) & 0xFFF, 12))
  }

  // ---------- the emitted words ----------

  function AccessWord(load: bool, width: MemWidth, rt: PhysReg, rn: PhysReg, off: i16): bv32 {
    if load then LoadWord(width, rt, rn, off) else StoreWord(width, rn, rt, off)
  }

  function AccessBase(load: bool, width: MemWidth): bv32 {
    match width
    case B => if load then 0x39400000 else 0x39000000
    case H => if load then 0x79400000 else 0x79000000
    case W => if load then 0xB9400000 else 0xB9000000
    case DW => if load then 0xF9400000 else 0xF9000000
  }

  function ShiftDown(x: bv16, width: MemWidth): bv16 {
    match width
    case B => x
    case H => x >> 1
    case W => x >> 2
    case DW => x >> 3
  }

  lemma AccessWordIs(load: bool, width: MemWidth, rt: PhysReg, rn: PhysReg, off: i16)
    ensures AccessWord(load, width, rt, rn, off)
         == ScaledForm(AccessBase(load, width), rt.n, rn.n, ShiftDown(AsU16(off), width))
  {
    hide AsU16, ScaledForm;
  }

  // ---------- offsets in their fields ----------

  function Low16(w: bv32): bv16 { (w & 0xFFFF) as bv16 }

  function Wide(s: bv16): bv32 { s as bv32 }

  function ShiftUp(w: bv32, width: MemWidth): bv32 {
    match width
    case B => w
    case H => Double(w, false)
    case W => Double(Double(w, false), false)
    case DW => Double(Double(Double(w, false), false), false)
  }

  lemma Scaled(width: MemWidth, q: nat)
    ensures ToWord(width.ByteLen() * q) == ShiftUp(ToWord(q), width)
  {
    hide ToWord, Double;
    Digit(q, false);
    Digit(2 * q, false);
    Digit(4 * q, false);
  }

  /** w has at most 13 bits: scaling by up to eight keeps them within the 16 bits of an offset. */
  predicate Room(w: bv32) { Within(w, 0x1FFF) }

  function Field(w: bv32): bv32 { w & 0xFFF }

  predicate BitAbove(w: bv32) { w & 0x1000 == 0x1000 }

  lemma Dropped0(w: bv32)
    requires Room(w)
    ensures Wide(ShiftDown(Low16(ShiftUp(w, B)), B)) == w
  {}

  lemma Dropped1(w: bv32)
    requires Room(w)
    ensures Wide(ShiftDown(Low16(ShiftUp(w, H)), H)) == w
  {}

  lemma Dropped2(w: bv32)
    requires Room(w)
    ensures Wide(ShiftDown(Low16(ShiftUp(w, W)), W)) == w
  {}

  lemma Dropped3(w: bv32)
    requires Room(w)
    ensures Wide(ShiftDown(Low16(ShiftUp(w, DW)), DW)) == w
  {}

  /** Scaling down what was scaled up, when nothing falls off at the top. */
  lemma UpAndDown(w: bv32, width: MemWidth)
    requires Room(w)
    ensures Wide(ShiftDown(Low16(ShiftUp(w, width)), width)) == w
  {
    hide *;
    match width
    case B => Dropped0(w);
    case H => Dropped1(w);
    case W => Dropped2(w);
    case DW => Dropped3(w);
  }

  lemma OffsetBits(x: int)
    ensures AsU16(x) == Low16(ToWord(x % TWO_16))
  {}

  /** The scaled field of a number of units, in the 16 bits of an offset. */
  lemma ScaledBack(width: MemWidth, x: int, q: nat)
    requires x % TWO_16 == width.ByteLen() * q && Room(ToWord(q))
    ensures Wide(ShiftDown(AsU16(x), width)) == ToWord(q)
  {
    hide *;
    OffsetBits(x);
    Scaled(width, q);
    UpAndDown(ToWord(q), width);
  }

  lemma FieldMasks()
    ensures Mask(12) == 0xFFF && Mask(13) == 0x1FFF && Pow2(12) == 4096 && Pow2(13) == 8192
  {
    Masks();
    Pow2Values();
  }

  /** A number of units that the field holds. */
  lemma InField(q: nat)
    requires q < 4096
    ensures Room(ToWord(q)) && Within(ToWord(q), 0xFFF) && FromWord(ToWord(q), 12) == q
  {
    hide *;
    FieldMasks();
    SmallWord(q, 12);
    Narrower(ToWord(q));
  }

  lemma Narrower(w: bv32)
    requires Within(w, 0xFFF)
    ensures Room(w)
  {}

  /** One bit too many: the field gets the rest, and the bit above it is set. */
  lemma PastField(q: nat)
    requires 4096 <= q < 8192
    ensures Room(ToWord(q)) && BitAbove(ToWord(q)) && FromWord(Field(ToWord(q)), 12) == q - 4096
  {
    ModUnique(q, 4096, 1, q - 4096);
    hide *;
    FieldMasks();
    SmallWord(q, 13);
    RoomIs(ToWord(q));
    FieldIs(q);
    if !BitAbove(ToWord(q)) {
      NoSuchBit(ToWord(q));
      TopBitClear(ToWord(q), 12);
    }
  }

  lemma FieldIs(q: nat)
    ensures FromWord(Field(ToWord(q)), 12) == q % 4096
  {
    FieldMasks();
    hide ToWord, FromWord, Mask, Pow2;
    FieldValue(q, 12);
  }

  lemma RoomIs(w: bv32)
    requires Within(w, 0x1FFF)
    ensures Room(w)
  {}

  lemma NoSuchBit(w: bv32)
    requires Room(w) && !BitAbove(w)
    ensures Within(w, 0xFFF)
  {}

  // ---------- decoding what was emitted ----------

  lemma BaseDecides(w: bv32, load: bool, width: MemWidth)
    requires w & 0xFFC00000 == AccessBase(load, width)
    ensures w & 0x3F000000 == 0x39000000 && w & 0x00800000 == 0
    ensures (w & 0x00400000 != 0) == load && WidthOfSize(w >> 30) == width
  {}

  lemma BaseFields(load: bool, width: MemWidth)
    ensures AccessBase(load, width) & 0x003FFFFF == 0
  {}

  /** The offset field of s holds everything there is. */
  predicate Fits(s: bv16) { s & 0xF000 == 0 }

  function LowBits(s: bv16): bv16 { s & 0xFFF }

  lemma InRangeDecodes(load: bool, width: MemWidth, rt: PhysReg, rn: PhysReg, off: i16, q: nat)
    requires IsReg(rt.n) && IsReg(rn.n) && q < 4096 && off == width.ByteLen() * q
    ensures DecodeAccess(AccessWord(load, width, rt, rn, off)) == Access(load, width, rt.n, rn.n, off)
  {
    var s := ShiftDown(AsU16(off), width);
    ModUnique(off, TWO_16, 0, off);
    hide *;
    InField(q);
    ScaledBack(width, off, q);
    AccessWordIs(load, width, rt, rn, off);
    FitsAlready(s);
    FieldDecodes(load, width, rt.n, rn.n, s, q);
  }

  lemma FitsAlready(s: bv16)
    requires Within(Wide(s), 0xFFF)
    ensures Fits(s)
  {}

  lemma FieldDecodes(load: bool, width: MemWidth, rt: bv8, rn: bv8, s: bv16, q: nat)
    requires IsReg(rt) && IsReg(rn) && Fits(s) && FromWord(Wide(s), 12) == q
    ensures DecodeAccess(ScaledForm(AccessBase(load, width), rt, rn, s))
         == Access(load, width, rt, rn, width.ByteLen() * q)
  {
    hide *;
    var w := ScaledForm(AccessBase(load, width), rt, rn, s);
    Narrow(s);
    BaseFields(load, width);
    ScaledFields(AccessBase(load, width), rt, rn, s);
    BaseDecides(w, load, width);
    DecodesTo(w);
    ByteLenIs(width);
  }

  lemma Narrow(s: bv16)
    requires Fits(s)
    ensures s < 0x1000 && Wide(s) == s as bv32
  {}

  lemma DecodesTo(w: bv32)
    requires w & 0x3F000000 == 0x39000000 && w & 0x00800000 == 0
    ensures var width := WidthOfSize(w >> 30);
            DecodeAccess(w)
            == Access(w & 0x00400000 != 0, width, FieldD(w), FieldN(w),
                Pow2(Shift(width)) * FromWord((w >> 10) & 0xFFF, 12))
  {
    hide WidthOfSize, Shift, FieldD, FieldN, Pow2, FromWord;
  }

  /** The offsets that a scaled 12-bit field can hold. */
  predicate Encodes(width: MemWidth, off: int) {
    0 <= off && off % width.ByteLen() == 0 && off / width.ByteLen() < 4096
  }

  lemma ByteLenIs(width: MemWidth)
    ensures Pow2(Shift(width)) == width.ByteLen()
  {
    Pow2Values();
  }

  lemma OffsetsDecoded(w: bv32, width: MemWidth)
    requires DecodeAccess(w).Access? && DecodeAccess(w).width == width
    ensures Encodes(width, DecodeAccess(w).off)
  {
    Pow2Values();
    ByteLenIs(width);
    hide Pow2, FieldD, FieldN, Shift, WidthOfSize, FromWord;
    var q := FromWord((w >> 10) & 0xFFF, 12);
    Multiple(width.ByteLen(), q);
  }

  lemma Multiple(b: nat, q: nat)
    requires b > 0
    ensures (b * q) % b == 0 && (b * q) / b == q
  {
    ModUnique(b * q, b, q, 0);
    assert b * q == q * b + 0;
  }

  /** A load or store goes where the instruction says exactly if its offset is not negative, a
      multiple of its size, and in reach of 12 scaled bits. */
  lemma AccessExact(load: bool, width: MemWidth, rt: PhysReg, rn: PhysReg, off: i16)
    requires IsReg(rt.n) && IsReg(rn.n)
    ensures DecodeAccess(AccessWord(load, width, rt, rn, off)) == Access(load, width, rt.n, rn.n, off) <==>
            Encodes(width, off)
  {
    ByteLenIs(width);
    var w := AccessWord(load, width, rt, rn, off);
    hide AccessWord, DecodeAccess, Pow2, Shift;
    if Encodes(width, off) {
      var q := off / width.ByteLen();
      assert off == width.ByteLen() * q;
      InRangeDecodes(load, width, rt, rn, off, q);
    } else if DecodeAccess(w) == Access(load, width, rt.n, rn.n, off) {
      OffsetsDecoded(w, width);
    }
  }

  /** The word does the access, exactly if its offset can be encoded. */
  predicate Reaches(w: bv32, load: bool, width: MemWidth, rt: bv8, rn: bv8, off: i16) {
    DecodeAccess(w) == Access(load, width, rt, rn, off) <==> Encodes(width, off)
  }

  /** Loads and stores are one word with the node's own registers, width and offset. */
  lemma AccessNodes(width: MemWidth, r: PhysReg, base: PhysReg, off: i16)
    requires IsReg(r.n) && IsReg(base.n)
    ensures var ws := A64NodeWords(IrLoad(width, r, base, off));
            |ws| == 1 && Reaches(ws[0], true, width, r.n, base.n, off)
    ensures var ws := A64NodeWords(IrStore(width, base, r, off));
            |ws| == 1 && Reaches(ws[0], false, width, r.n, base.n, off)
  {
    hide DecodeAccess, AccessWord, LoadWord, StoreWord, Encodes, A64NodeWords;
    AccessExact(true, width, r, base, off);
    AccessExact(false, width, r, base, off);
    LoadWords(width, r, base, off);
  }

  lemma LoadWords(width: MemWidth, r: PhysReg, base: PhysReg, off: i16)
    ensures A64NodeWords(IrLoad(width, r, base, off)) == [AccessWord(true, width, r, base, off)]
    ensures A64NodeWords(IrStore(width, base, r, off)) == [AccessWord(false, width, r, base, off)]
  {
    hide LoadWord, StoreWord;
  }

  /** A constant is first built in X9 and stored from there. */
  lemma ConstantStore(width: MemWidth, base: PhysReg, off: i16, imm: i32)
    requires IsReg(base.n)
    ensures var ws, load := A64NodeWords(IrStoreImm(width, base, off, imm)), LoadImmWords(PhysReg(9), Wrap64(imm));
            |ws| == |load| + 1 && ws[..|load|] == load && Reaches(ws[|load|], false, width, 9, base.n, off)
  {
    hide DecodeAccess, AccessWord, LoadWord, StoreWord, Encodes, A64NodeWords, LoadImmWords, Wrap64;
    AccessExact(false, width, PhysReg(9), base, off);
    ConstantWords(width, base, off, imm);
  }

  lemma ConstantWords(width: MemWidth, base: PhysReg, off: i16, imm: i32)
    ensures A64NodeWords(IrStoreImm(width, base, off, imm))
         == LoadImmWords(PhysReg(9), Wrap64(imm)) + [AccessWord(false, width, PhysReg(9), base, off)]
  {
    hide LoadWord, StoreWord, LoadImmWords, Wrap64;
  }

  /** Spills and fills are doublewords relative to the stack pointer. */
  lemma SpillNodes(r: PhysReg, off: i16)
    requires IsReg(r.n)
    ensures var ws := A64NodeWords(IrSpill(r, off)); |ws| == 1 && Reaches(ws[0], false, DW, r.n, 31, off)
    ensures var ws := A64NodeWords(IrFill(r, off)); |ws| == 1 && Reaches(ws[0], true, DW, r.n, 31, off)
  {
    hide DecodeAccess, AccessWord, LoadWord, StoreWord, Encodes, A64NodeWords;
    AccessExact(false, DW, r, PhysReg(31), off);
    AccessExact(true, DW, r, PhysReg(31), off);
    SpillWords(r, off);
  }

  lemma SpillWords(r: PhysReg, off: i16)
    ensures A64NodeWords(IrSpill(r, off)) == [AccessWord(false, DW, r, PhysReg(31), off)]
    ensures A64NodeWords(IrFill(r, off)) == [AccessWord(true, DW, r, PhysReg(31), off)]
  {
    hide LdrX, StrX;
  }

  /** So no access to the eBPF stack that verification accepts is encoded right: their offsets from
      the frame pointer are negative. */
  lemma FrameAccessesMissed(i: Insn, load: bool, width: MemWidth, rt: PhysReg, rn: PhysReg)
    requires FrameAccess(i) && FrameOk(i) && IsReg(rt.n) && IsReg(rn.n)
    ensures DecodeAccess(AccessWord(load, width, rt, rn, i.off)) != Access(load, width, rt.n, rn.n, i.off)
  {
    AccessExact(load, width, rt, rn, i.off);
    hide AccessWord, DecodeAccess;
  }

  /** Worse: the sign of the offset runs into the opcode, and every eight-byte store with a negative
      offset, a multiple of 8, becomes a load, 32768 bytes higher. */
  lemma StoreBecomesLoad(rt: PhysReg, rn: PhysReg, off: i16)
    requires IsReg(rt.n) && IsReg(rn.n) && off < 0 && off % 8 == 0
    ensures DecodeAccess(AccessWord(false, DW, rt, rn, off)) == Access(true, DW, rt.n, rn.n, off + 32768)
  {
    hide *;
    var q := NegativeUnits(off);
    var s := ShiftDown(AsU16(off), DW);
    PastField(q);
    ScaledBack(DW, off, q);
    AccessWordIs(false, DW, rt, rn, off);
    PastFieldIs(s, ToWord(q));
    Overlap(rt.n, rn.n, s);
    FieldDecodes(true, DW, rt.n, rn.n, LowBits(s), q - 4096);
    EightBytes();
  }

  /** A negative offset, in units of eight bytes, as its 16 bits represent it. */
  lemma NegativeUnits(off: i16) returns (q: nat)
    requires off < 0 && off % 8 == 0
    ensures 4096 <= q < 8192 && off % TWO_16 == DW.ByteLen() * q && 8 * (q - 4096) == off + 32768
  {
    q := off / 8 + 8192;
    ModUnique(off, TWO_16, -1, off + TWO_16);
    assert off == 8 * (off / 8);
  }

  lemma EightBytes()
    ensures DW.ByteLen() == 8
  {}

  predicate Overflows(s: bv16) { s & 0xF000 == 0x1000 }

  lemma PastFieldIs(s: bv16, w: bv32)
    requires Wide(s) == w && Room(w) && BitAbove(w)
    ensures Overflows(s) && Wide(LowBits(s)) == Field(w) && Fits(LowBits(s))
  {}

  lemma Overlap(rt: bv8, rn: bv8, s: bv16)
    requires Overflows(s)
    ensures ScaledForm(AccessBase(false, DW), rt, rn, s) == ScaledForm(AccessBase(true, DW), rt, rn, LowBits(s))
  {}
}
