/** The opcode table of bedbug/tables.h, entry by entry: it is as find_opcode needs it, so whatever is
    assembled with one of its opcodes is found to be an instruction with that opcode. */
module BedbugTable {
  import opened CString
  import opened BitFields
  import opened Bedbug
  import opened BedbugAssembler
  import opened BedbugBranches
  import opened BedbugLookup
  import opened BedbugStepper

  /** The operand table, as far as the opcodes use it and the branches do not; the number of a name is that
      of the field in the source's enumeration. */
  const CRBD := Operand(O_Other(5), 5, 21, Plain, false)
  const CRBA := Operand(O_Other(6), 5, 16, Plain, false)
  const CRBB := Operand(O_Other(7), 5, 11, Plain, false)
  const CRM := Operand(O_Other(8), 8, 12, Plain, false)
  const OFFSET := Operand(O_Other(9), 15, 0, Plain, false)
  const MB := Operand(O_Other(16), 5, 6, Plain, false)
  const ME := Operand(O_Other(17), 5, 1, Plain, false)
  const NB := Operand(O_Other(18), 5, 11, Plain, false)
  const OE := Operand(O_Other(19), 1, 10, Plain, true)
  const RA := Operand(O_Other(20), 5, 16, Register, false)
  const RB := Operand(O_Other(21), 5, 11, Register, false)
  const RC := Operand(O_Other(22), 1, 0, Plain, true)
  const RD := Operand(O_Other(23), 5, 21, Register, false)
  const RS := Operand(O_Other(24), 5, 21, Register, false)
  const SH := Operand(O_Other(25), 5, 11, Plain, false)
  const SIMM := Operand(O_Other(26), 16, 0, Plain, false)
  const SR := Operand(O_Other(27), 4, 16, Plain, false)
  const TO := Operand(O_Other(28), 5, 21, Plain, false)
  const UIMM := Operand(O_Other(29), 16, 0, Plain, false)
  const CRFD := Operand(O_Other(30), 3, 23, Plain, false)
  const CRFS := Operand(O_Other(31), 3, 18, Plain, false)
  const L := Operand(O_Other(32), 1, 21, Plain, false)
  const TBR := Operand(O_Other(34), 10, 11, TimeBase, false)

  function SPR(sprs: seq<Spr>): Operand {
    Operand(O_Other(33), 10, 11, Special(sprs), false)
  }

  /** The operand lists of the X, XL, XFX and XO forms, of the D, M, B and I forms. */
  datatype XFormat =
    | NoOperands | crfD | rB | rD | rS | CRM_rS | SR_rS | crfD_crfS | rA_rB | rD_SR | rD_rB | rD_spr | rD_tbr | rS_rB
    | spr_rS | BO_BI_LK | TO_rA_rB | crbD_crbA_crbB | rA_rS_Rc | rD_rA_NB | rD_rA_rB | rS_rA_NB | rS_rA_rB
    | crfD_L_rA_rB | rA_rS_SH_Rc | rA_rS_rB_Rc | rD_rA_OE_Rc | rD_rA_rB_Rc | rD_rA_rB_OE_Rc

  datatype DFormat =
    | TO_rA_SIMM | rA_rS_UIMM | rD_d_rA | rD_rA_SIMM | rS_d_rA | crfD_L_rA_SIMM | crfD_L_rA_UIMM

  datatype MFormat =
    | rA_rS_SH_MB_ME_Rc | rA_rS_rB_MB_ME_Rc

  datatype BFormat =
    | LI_AA_LK | BO_BI_BD_AA_LK

  datatype Format = OfX(x: XFormat) | OfD(d: DFormat) | OfM(m: MFormat) | OfB(b: BFormat)

  /** Operands of the right width that do not overlap; those that are not silent lie above the lower bits
      of the opcode and below the upper six. */
  predicate Fitting(fields: seq<Operand>, low: nat) {
    && (forall i, j :: 0 <= i < j < |fields| ==> Apart(fields[i], fields[j]))
    && (forall i :: 0 <= i < |fields| ==> Fitted(fields[i], low))
  }

  predicate Fitted(o: Operand, low: nat) {
    && 0 < o.bits && o.shift + o.bits <= 32 && (!o.silent ==> low <= o.shift && o.shift + o.bits <= 26)
    && match o.name
       case O_LI => o.bits == 24
       case O_BD => o.bits == 14
       case O_BO => o.bits == 5
       case O_BI => o.bits == 5
       case _ => true
  }

  function XOperands(format: XFormat, sprs: seq<Spr>): seq<Operand> {
    match format
    case NoOperands => []
    case crfD => [CRFD]
    case rB => [RB]
    case rD => [RD]
    case rS => [RS]
    case CRM_rS => [CRM, RS]
    case SR_rS => [SR, RS]
    case crfD_crfS => [CRFD, CRFS]
    case rA_rB => [RA, RB]
    case rD_SR => [RD, SR]
    case rD_rB => [RD, RB]
    case rD_spr => [RD, SPR(sprs)]
    case rD_tbr => [RD, TBR]
    case rS_rB => [RS, RB]
    case spr_rS => [SPR(sprs), RS]
    case BO_BI_LK => [BO, BI, LK]
    case TO_rA_rB => [TO, RA, RB]
    case crbD_crbA_crbB => [CRBD, CRBA, CRBB]
    case rA_rS_Rc => [RA, RS, RC]
    case rD_rA_NB => [RD, RA, NB]
    case rD_rA_rB => [RD, RA, RB]
    case rS_rA_NB => [RS, RA, NB]
    case rS_rA_rB => [RS, RA, RB]
    case crfD_L_rA_rB => [CRFD, L, RA, RB]
    case rA_rS_SH_Rc => [RA, RS, SH, RC]
    case rA_rS_rB_Rc => [RA, RS, RB, RC]
    case rD_rA_OE_Rc => [RD, RA, OE, RC]
    case rD_rA_rB_Rc => [RD, RA, RB, RC]
    case rD_rA_rB_OE_Rc => [RD, RA, RB, OE, RC]
  }

  function DOperands(format: DFormat): (r: seq<Operand>)
    ensures Fitting(r, 0)
  {
    match format
    case TO_rA_SIMM => [TO, RA, SIMM]
    case rA_rS_UIMM => [RA, RS, UIMM]
    case rD_d_rA => [RD, OFFSET, RA]
    case rD_rA_SIMM => [RD, RA, SIMM]
    case rS_d_rA => [RS, OFFSET, RA]
    case crfD_L_rA_SIMM => [CRFD, L, RA, SIMM]
    case crfD_L_rA_UIMM => [CRFD, L, RA, UIMM]
  }

  function MOperands(format: MFormat): (r: seq<Operand>)
    ensures Fitting(r, 1)
  {
    match format
    case rA_rS_SH_MB_ME_Rc => [RA, RS, SH, MB, ME, RC]
    case rA_rS_rB_MB_ME_Rc => [RA, RS, RB, MB, ME, RC]
  }

  function BOperands(format: BFormat): (r: seq<Operand>)
    ensures Fitting(r, 2)
  {
    match format
    case LI_AA_LK => [LI, AA, LK]
    case BO_BI_BD_AA_LK => [BO, BI, BD, AA, LK]
  }

  function Operands(format: Format, sprs: seq<Spr>): seq<Operand> {
    match format
    case OfX(x) => XOperands(x, sprs)
    case OfD(d) => DOperands(d)
    case OfM(m) => MOperands(m)
    case OfB(b) => BOperands(b)
  }

  /** The lowest bit of the operands that are not silent. */
  function Lowest(format: Format): nat {
    match format
    case OfX(_) => 11
    case OfD(_) => 0
    case OfM(_) => 1
    case OfB(_) => 2
  }

  lemma FewFit(format: XFormat, sprs: seq<Spr>)
    ensures var r := XOperands(format, sprs); |r| <= 2 ==> Fitting(r, 11)
  {
  }

  lemma ThreeFit(format: XFormat, sprs: seq<Spr>)
    ensures var r := XOperands(format, sprs); |r| == 3 ==> Fitting(r, 11)
  {
  }

  lemma ManyFit(format: XFormat, sprs: seq<Spr>)
    ensures var r := XOperands(format, sprs); |r| > 3 ==> Fitting(r, 11)
  {
  }

  lemma OperandsFit(format: Format, sprs: seq<Spr>)
    ensures Fitting(Operands(format, sprs), Lowest(format))
  {
    hide XOperands, DOperands, MOperands, BOperands, Fitting;
    if format.OfX? {
      FewFit(format.x, sprs);
      ThreeFit(format.x, sprs);
      ManyFit(format.x, sprs);
    }
  }

  type six = x: nat | x < 0x40

  type eleven = x: nat | x < 0x800

  /** An entry: the upper six bits of the opcode, its lower bits and those of its mask. */
  datatype Row = Row(primary: six, minor: eleven, low: eleven, format: Format, name: string, relative: bool)

  function OpcodeOf(r: Row, sprs: seq<Spr>): Opcode {
    Opcode(0x400_0000 * r.primary + r.minor, 0xFC00_0000 + r.low, Operands(r.format, sprs), r.name, r.relative)
  }

  /** How many lower bits the opcodes with these upper bits may use. */
  function LowBits(primary: six): nat {
    if primary == 19 || primary == 31 then 11
    else if 16 <= primary <= 18 then 2
    else if primary == 20 || primary == 21 || primary == 23 then 1
    else 0
  }

  /** Their mask takes in all of them, except for the system call. */
  function LowMask(primary: six): eleven {
    match LowBits(primary)
    case 0 => 0
    case 1 => 1
    case 2 => if primary == 17 then 2 else 3
    case _ => 0x7FF
  }

  /** Opcode and mask use the bits below the operands only, and the mask is that of the upper six bits. */
  predicate Regular(r: Row) {
    && r.low == LowMask(r.primary) && LowBits(r.primary) <= Lowest(r.format)
    && (if r.primary == 17 then r.minor == 2 else r.minor <= r.low)
  }

  type OpRow = r: Row | Regular(r) witness Row(0, 0, 0, OfX(NoOperands), "", false)

  function Key(r: Row): nat {
    0x800 * r.primary + r.minor
  }

  /** Every entry comes before the next one. */
  ghost predicate Steps(rows: seq<OpRow>) {
    forall i :: 0 <= i < |rows| - 1 ==> Key(rows[i]) < Key(rows[i + 1])
  }

  // ---- the table

  /** The X, XL and XFX forms; of the lower bits, the last one is Rc or LK. */
  function X(primary: six, xo: nat, rc: nat, format: XFormat, name: string): (r: OpRow)
    requires (primary == 19 || primary == 31) && xo < 0x400 && rc < 2
  {
    Row(primary, 2 * xo + rc, 0x7FF, OfX(format), name, false)
  }

  /** The XO form. */
  function XO(xo: nat, oe: nat, rc: nat, format: XFormat, name: string): (r: OpRow)
    requires xo < 0x200 && oe < 2 && rc < 2
  {
    Row(31, 0x400 * oe + 2 * xo + rc, 0x7FF, OfX(format), name, false)
  }

  /** The D form. */
  function D(primary: six, format: DFormat, name: string): (r: OpRow)
    requires LowBits(primary) == 0
  {
    Row(primary, 0, 0, OfD(format), name, false)
  }

  /** The M form. */
  function M(primary: six, rc: nat, format: MFormat, name: string): (r: OpRow)
    requires LowBits(primary) == 1 && rc < 2
  {
    Row(primary, rc, 1, OfM(format), name, false)
  }

  /** The B and I forms. */
  function Direct(primary: six, aa: nat, lk: nat, format: BFormat, name: string): (r: OpRow)
    requires (primary == 16 || primary == 18) && aa < 2 && lk < 2
  {
    Row(primary, 2 * aa + lk, 3, OfB(format), name, aa == 0)
  }

  function Rows0(): (r: seq<OpRow>)
    ensures |r| == 9
  {
    [
      D(3, TO_rA_SIMM, "twi"),
      D(7, rD_rA_SIMM, "mulli"),
      D(8, rD_rA_SIMM, "subfic"),
      D(10, crfD_L_rA_UIMM, "cmpli"),
      D(11, crfD_L_rA_SIMM, "cmpi"),
      D(12, rD_rA_SIMM, "addic"),
      D(13, rD_rA_SIMM, "addic."),
      D(14, rD_rA_SIMM, "addi"),
      D(15, rD_rA_SIMM, "addis")
    ]
  }

  function Rows1(): (r: seq<OpRow>)
    ensures |r| == 9
  {
    [
      Direct(16, 0, 0, BO_BI_BD_AA_LK, "bc"),
      Direct(16, 0, 1, BO_BI_BD_AA_LK, "bcl"),
      Direct(16, 1, 0, BO_BI_BD_AA_LK, "bca"),
      Direct(16, 1, 1, BO_BI_BD_AA_LK, "bcla"),
      Row(17, 2, 2, OfX(NoOperands), "sc", false),
      Direct(18, 0, 0, LI_AA_LK, "b"),
      Direct(18, 0, 1, LI_AA_LK, "bl"),
      Direct(18, 1, 0, LI_AA_LK, "ba"),
      Direct(18, 1, 1, LI_AA_LK, "bla")
    ]
  }

  function Rows2(): (r: seq<OpRow>)
    ensures |r| == 15
  {
    [
      X(19, 0, 0, crfD_crfS, "mcrf"),
      X(19, 16, 0, BO_BI_LK, "bclr"),
      X(19, 16, 1, BO_BI_LK, "bclrl"),
      X(19, 33, 0, crbD_crbA_crbB, "crnor"),
      X(19, 50, 0, NoOperands, "rfi"),
      X(19, 129, 0, crbD_crbA_crbB, "crandc"),
      X(19, 150, 0, NoOperands, "isync"),
      X(19, 193, 0, crbD_crbA_crbB, "crxor"),
      X(19, 225, 0, crbD_crbA_crbB, "crnand"),
      X(19, 257, 0, crbD_crbA_crbB, "crand"),
      X(19, 289, 0, crbD_crbA_crbB, "creqv"),
      X(19, 417, 0, crbD_crbA_crbB, "crorc"),
      X(19, 449, 0, crbD_crbA_crbB, "cror"),
      X(19, 528, 0, BO_BI_LK, "bcctr"),
      X(19, 528, 1, BO_BI_LK, "bcctrl")
    ]
  }

  function Rows3(): (r: seq<OpRow>)
    ensures |r| == 12
  {
    [
      M(20, 0, rA_rS_SH_MB_ME_Rc, "rlwimi"),
      M(20, 1, rA_rS_SH_MB_ME_Rc, "rlwimi."),
      M(21, 0, rA_rS_SH_MB_ME_Rc, "rlwinm"),
      M(21, 1, rA_rS_SH_MB_ME_Rc, "rlwinm."),
      M(23, 0, rA_rS_rB_MB_ME_Rc, "rlwnm"),
      M(23, 1, rA_rS_rB_MB_ME_Rc, "rlwnm."),
      D(24, rA_rS_UIMM, "ori"),
      D(25, rA_rS_UIMM, "oris"),
      D(26, rA_rS_UIMM, "xori"),
      D(27, rA_rS_UIMM, "xoris"),
      D(28, rA_rS_UIMM, "andi."),
      D(29, rA_rS_UIMM, "andis.")
    ]
  }

  function Rows4(): (r: seq<OpRow>)
    ensures |r| == 25
  {
    [
      X(31, 0, 0, crfD_L_rA_rB, "cmp"),
      X(31, 4, 0, TO_rA_rB, "tw"),
      XO(8, 0, 0, rD_rA_rB_OE_Rc, "subfc"),
      XO(8, 0, 1, rD_rA_rB_OE_Rc, "subfc."),
      XO(10, 0, 0, rD_rA_rB_OE_Rc, "addc"),
      XO(10, 0, 1, rD_rA_rB_OE_Rc, "addc."),
      XO(11, 0, 0, rD_rA_rB_Rc, "mulhwu"),
      XO(11, 0, 1, rD_rA_rB_Rc, "mulhwu."),
      X(31, 19, 0, rD, "mfcr"),
      X(31, 20, 0, rD_rA_rB, "lwarx"),
      X(31, 23, 0, rD_rA_rB, "lwzx"),
      X(31, 24, 0, rA_rS_rB_Rc, "slw"),
      X(31, 24, 1, rA_rS_rB_Rc, "slw."),
      X(31, 26, 0, rA_rS_Rc, "cntlzw"),
      X(31, 26, 1, rA_rS_Rc, "cntlzw."),
      X(31, 28, 0, rA_rS_rB_Rc, "and"),
      X(31, 28, 1, rA_rS_rB_Rc, "and."),
      X(31, 32, 0, crfD_L_rA_rB, "cmpl"),
      XO(40, 0, 0, rD_rA_rB_OE_Rc, "subf"),
      XO(40, 0, 1, rD_rA_rB_OE_Rc, "subf."),
      X(31, 54, 0, rA_rB, "dcbst"),
      X(31, 55, 0, rD_rA_rB, "lwzux"),
      X(31, 60, 0, rA_rS_rB_Rc, "andc"),
      X(31, 60, 1, rA_rS_rB_Rc, "andc."),
      XO(75, 0, 0, rD_rA_rB_Rc, "mulhw")
    ]
  }

  function Rows5(): (r: seq<OpRow>)
    ensures |r| == 25
  {
    [
      XO(75, 0, 1, rD_rA_rB_Rc, "mulhw."),
      X(31, 83, 0, rD, "mfmsr"),
      X(31, 86, 0, rA_rB, "dcbf"),
      X(31, 87, 0, rD_rA_rB, "lbzx"),
      XO(104, 0, 0, rD_rA_OE_Rc, "neg"),
      XO(104, 0, 1, rD_rA_OE_Rc, "neg."),
      X(31, 119, 0, rD_rA_rB, "lbzux"),
      X(31, 124, 0, rA_rS_rB_Rc, "nor"),
      X(31, 124, 1, rA_rS_rB_Rc, "nor."),
      XO(136, 0, 0, rD_rA_rB_OE_Rc, "subfe"),
      XO(136, 0, 1, rD_rA_rB_OE_Rc, "subfe."),
      XO(138, 0, 0, rD_rA_rB_OE_Rc, "adde"),
      XO(138, 0, 1, rD_rA_rB_OE_Rc, "adde."),
      X(31, 144, 0, CRM_rS, "mtcrf"),
      X(31, 146, 0, rS, "mtmsr"),
      X(31, 150, 1, rS_rA_rB, "stwcx."),
      X(31, 151, 0, rS_rA_rB, "stwx"),
      X(31, 183, 0, rS_rA_rB, "stwux"),
      XO(200, 0, 0, rD_rA_OE_Rc, "subfze"),
      XO(200, 0, 1, rD_rA_OE_Rc, "subfze."),
      XO(202, 0, 0, rD_rA_OE_Rc, "addze"),
      XO(202, 0, 1, rD_rA_OE_Rc, "addze."),
      X(31, 210, 0, SR_rS, "mtsr"),
      X(31, 215, 0, rS_rA_rB, "stbx"),
      XO(232, 0, 0, rD_rA_OE_Rc, "subfme")
    ]
  }

  function Rows6(): (r: seq<OpRow>)
    ensures |r| == 25
  {
    [
      XO(232, 0, 1, rD_rA_OE_Rc, "subfme."),
      XO(234, 0, 0, rD_rA_OE_Rc, "addme"),
      XO(234, 0, 1, rD_rA_OE_Rc, "addme."),
      XO(235, 0, 0, rD_rA_rB_OE_Rc, "mullw"),
      XO(235, 0, 1, rD_rA_rB_OE_Rc, "mullw."),
      X(31, 242, 0, rS_rB, "mtsrin"),
      X(31, 246, 0, rA_rB, "dcbtst"),
      X(31, 247, 0, rS_rA_rB, "stbux"),
      XO(266, 0, 0, rD_rA_rB_OE_Rc, "add"),
      XO(266, 0, 1, rD_rA_rB_OE_Rc, "add."),
      X(31, 278, 0, rA_rB, "dcbt"),
      X(31, 279, 0, rD_rA_rB, "lhzx"),
      X(31, 284, 0, rA_rS_rB_Rc, "eqv"),
      X(31, 284, 1, rA_rS_rB_Rc, "eqv."),
      X(31, 306, 0, rB, "tlbie"),
      X(31, 310, 0, rD_rA_rB, "eciwx"),
      X(31, 311, 0, rD_rA_rB, "lhzux"),
      X(31, 316, 0, rA_rS_rB_Rc, "xor"),
      X(31, 316, 1, rA_rS_rB_Rc, "xor."),
      X(31, 339, 0, rD_spr, "mfspr"),
      X(31, 343, 0, rD_rA_rB, "lhax"),
      X(31, 370, 0, NoOperands, "tlbia"),
      X(31, 371, 0, rD_tbr, "mftb"),
      X(31, 375, 0, rD_rA_rB, "lhaux"),
      X(31, 407, 0, rS_rA_rB, "sthx")
    ]
  }

  function Rows7(): (r: seq<OpRow>)
    ensures |r| == 25
  {
    [
      X(31, 412, 0, rA_rS_rB_Rc, "orc"),
      X(31, 412, 1, rA_rS_rB_Rc, "orc."),
      X(31, 438, 0, rS_rA_rB, "ecowx"),
      X(31, 439, 0, rS_rA_rB, "sthux"),
      X(31, 444, 0, rA_rS_rB_Rc, "or"),
      X(31, 444, 1, rA_rS_rB_Rc, "or."),
      XO(459, 0, 0, rD_rA_rB_OE_Rc, "divwu"),
      XO(459, 0, 1, rD_rA_rB_OE_Rc, "divwu."),
      X(31, 467, 0, spr_rS, "mtspr"),
      X(31, 470, 0, rA_rB, "dcbi"),
      X(31, 476, 0, rA_rS_rB_Rc, "nand"),
      X(31, 476, 1, rA_rS_rB_Rc, "nand."),
      XO(491, 0, 0, rD_rA_rB_OE_Rc, "divw"),
      XO(491, 0, 1, rD_rA_rB_OE_Rc, "divw."),
      X(31, 512, 0, crfD, "mcrxr"),
      XO(8, 1, 0, rD_rA_rB_OE_Rc, "subfco"),
      XO(8, 1, 1, rD_rA_rB_OE_Rc, "subfco."),
      XO(10, 1, 0, rD_rA_rB_OE_Rc, "addco"),
      XO(10, 1, 1, rD_rA_rB_OE_Rc, "addco."),
      X(31, 533, 0, rD_rA_rB, "lswx"),
      X(31, 534, 0, rD_rA_rB, "lwbrx"),
      X(31, 536, 0, rA_rS_rB_Rc, "srw"),
      X(31, 536, 1, rA_rS_rB_Rc, "srw."),
      XO(40, 1, 0, rD_rA_rB_OE_Rc, "subfo"),
      XO(40, 1, 1, rD_rA_rB_OE_Rc, "subfo.")
    ]
  }

  function Rows8(): (r: seq<OpRow>)
    ensures |r| == 25
  {
    [
      X(31, 566, 0, NoOperands, "tlbsync"),
      X(31, 595, 0, rD_SR, "mfsr"),
      X(31, 597, 0, rD_rA_NB, "lswi"),
      X(31, 598, 0, NoOperands, "sync"),
      XO(104, 1, 0, rD_rA_OE_Rc, "nego"),
      XO(104, 1, 1, rD_rA_OE_Rc, "nego."),
      XO(136, 1, 0, rD_rA_rB_OE_Rc, "subfeo"),
      XO(136, 1, 1, rD_rA_rB_OE_Rc, "subfeo."),
      XO(138, 1, 0, rD_rA_rB_OE_Rc, "addeo"),
      XO(138, 1, 1, rD_rA_rB_OE_Rc, "addeo."),
      X(31, 659, 0, rD_rB, "mfsrin"),
      X(31, 661, 0, rS_rA_rB, "stswx"),
      X(31, 662, 0, rS_rA_rB, "stwbrx"),
      XO(200, 1, 0, rD_rA_OE_Rc, "subfzeo"),
      XO(200, 1, 1, rD_rA_OE_Rc, "subfzeo."),
      XO(202, 1, 0, rD_rA_OE_Rc, "addzeo"),
      XO(202, 1, 1, rD_rA_OE_Rc, "addzeo."),
      X(31, 725, 0, rS_rA_NB, "stswi"),
      XO(232, 1, 0, rD_rA_OE_Rc, "subfmeo"),
      XO(232, 1, 1, rD_rA_OE_Rc, "subfmeo."),
      XO(234, 1, 0, rD_rA_OE_Rc, "addmeo"),
      XO(234, 1, 1, rD_rA_OE_Rc, "addmeo."),
      XO(235, 1, 0, rD_rA_rB_OE_Rc, "mullwo"),
      XO(235, 1, 1, rD_rA_rB_OE_Rc, "mullwo."),
      XO(266, 1, 0, rD_rA_rB_OE_Rc, "addo")
    ]
  }

  function Rows9(): (r: seq<OpRow>)
    ensures |r| == 20
  {
    [
      XO(266, 1, 1, rD_rA_rB_OE_Rc, "addo."),
      X(31, 790, 0, rD_rA_rB, "lhbrx"),
      X(31, 792, 0, rA_rS_rB_Rc, "sraw"),
      X(31, 792, 1, rA_rS_rB_Rc, "sraw."),
      X(31, 824, 0, rA_rS_SH_Rc, "srawi"),
      X(31, 824, 1, rA_rS_SH_Rc, "srawi."),
      X(31, 854, 0, NoOperands, "eieio"),
      X(31, 918, 0, rS_rA_rB, "sthbrx"),
      X(31, 922, 0, rA_rS_Rc, "extsh"),
      X(31, 922, 1, rA_rS_Rc, "extsh."),
      X(31, 954, 0, rA_rS_Rc, "extsb"),
      X(31, 954, 1, rA_rS_Rc, "extsb."),
      XO(459, 1, 0, rD_rA_rB_OE_Rc, "divwuo"),
      XO(459, 1, 1, rD_rA_rB_OE_Rc, "divwuo."),
      X(31, 978, 0, rB, "tlbld"),
      X(31, 982, 0, rA_rB, "icbi"),
      XO(491, 1, 0, rD_rA_rB_OE_Rc, "divwo"),
      XO(491, 1, 1, rD_rA_rB_OE_Rc, "divwo."),
      X(31, 1010, 0, rB, "tlbli"),
      X(31, 1014, 0, rA_rB, "dcbz")
    ]
  }

  function Rows10(): (r: seq<OpRow>)
    ensures |r| == 8
  {
    [
      D(32, rD_d_rA, "lwz"),
      D(33, rD_d_rA, "lwzu"),
      D(34, rD_d_rA, "lbz"),
      D(35, rD_d_rA, "lbzu"),
      D(36, rS_d_rA, "stw"),
      D(37, rS_d_rA, "stwu"),
      D(38, rS_d_rA, "stb"),
      D(39, rS_d_rA, "stbu")
    ]
  }

  function Rows11(): (r: seq<OpRow>)
    ensures |r| == 8
  {
    [
      D(40, rD_d_rA, "lhz"),
      D(41, rD_d_rA, "lhzu"),
      D(42, rD_d_rA, "lha"),
      D(43, rD_d_rA, "lhau"),
      D(44, rS_d_rA, "sth"),
      D(45, rS_d_rA, "sthu"),
      D(46, rD_d_rA, "lmw"),
      D(47, rS_d_rA, "stmw")
    ]
  }

  lemma Steps0()
    ensures Steps(Rows0()) && Key(Rows0()[0]) == 6144 && Key(Rows0()[8]) == 30720
  {
    hide LowMask, LowBits, Lowest, Regular;
  }

  lemma Steps1()
    ensures Steps(Rows1()) && Key(Rows1()[0]) == 32768 && Key(Rows1()[8]) == 36867
  {
    hide LowMask, LowBits, Lowest, Regular;
  }

  lemma Steps2()
    ensures Steps(Rows2()) && Key(Rows2()[0]) == 38912 && Key(Rows2()[14]) == 39969
  {
    hide LowMask, LowBits, Lowest, Regular;
  }

  lemma Steps3()
    ensures Steps(Rows3()) && Key(Rows3()[0]) == 40960 && Key(Rows3()[11]) == 59392
  {
    hide LowMask, LowBits, Lowest, Regular;
  }

  lemma Steps4()
    ensures Steps(Rows4()) && Key(Rows4()[0]) == 63488 && Key(Rows4()[24]) == 63638
  {
    hide LowMask, LowBits, Lowest, Regular;
  }

  lemma Steps5()
    ensures Steps(Rows5()) && Key(Rows5()[0]) == 63639 && Key(Rows5()[24]) == 63952
  {
    hide LowMask, LowBits, Lowest, Regular;
  }

  lemma Steps6()
    ensures Steps(Rows6()) && Key(Rows6()[0]) == 63953 && Key(Rows6()[24]) == 64302
  {
    hide LowMask, LowBits, Lowest, Regular;
  }

  lemma Steps7()
    ensures Steps(Rows7()) && Key(Rows7()[0]) == 64312 && Key(Rows7()[24]) == 64593
  {
    hide LowMask, LowBits, Lowest, Regular;
  }

  lemma Steps8()
    ensures Steps(Rows8()) && Key(Rows8()[0]) == 64620 && Key(Rows8()[24]) == 65044
  {
    hide LowMask, LowBits, Lowest, Regular;
  }

  lemma Steps9()
    ensures Steps(Rows9()) && Key(Rows9()[0]) == 65045 && Key(Rows9()[19]) == 65516
  {
    hide LowMask, LowBits, Lowest, Regular;
  }

  lemma Steps10()
    ensures Steps(Rows10()) && Key(Rows10()[0]) == 65536 && Key(Rows10()[7]) == 79872
  {
    hide LowMask, LowBits, Lowest, Regular;
  }

  lemma Steps11()
    ensures Steps(Rows11()) && Key(Rows11()[0]) == 81920 && Key(Rows11()[7]) == 96256
  {
    hide LowMask, LowBits, Lowest, Regular;
  }

  // ---- the order of the entries

  lemma Joined(a: seq<OpRow>, b: seq<OpRow>)
    requires Steps(a) && Steps(b) && a != [] && b != [] && Key(a[|a| - 1]) < Key(b[0])
    ensures Steps(a + b) && (a + b)[0] == a[0]
  {
    hide Key, Regular;
    var rows := a + b;
    forall i | 0 <= i < |rows| - 1 ensures Key(rows[i]) < Key(rows[i + 1]) {
      if i < |a| - 1 {
        assert rows[i] == a[i] && rows[i + 1] == a[i + 1];
      } else if i == |a| - 1 {
        assert rows[i] == a[|a| - 1] && rows[i + 1] == b[0];
      } else {
        assert rows[i] == b[i - |a|] && rows[i + 1] == b[i - |a| + 1];
      }
    }
  }

  /** The entries whose upper six bits are smaller than 31, equal and greater. */
  function RowsBelow(): (r: seq<OpRow>)
    ensures |r| == 45
  {
    Rows0() + (Rows1() + (Rows2() + Rows3()))
  }

  function Rows31(): (r: seq<OpRow>)
    ensures |r| == 145
  {
    Rows4() + (Rows5() + (Rows6() + (Rows7() + (Rows8() + Rows9()))))
  }

  function RowsAbove(): (r: seq<OpRow>)
    ensures |r| == 16
  {
    Rows10() + Rows11()
  }

  function Rows(): (r: seq<OpRow>)
    ensures |r| == 206
  {
    RowsBelow() + (Rows31() + RowsAbove())
  }

  lemma BelowIsOrdered()
    ensures Steps(RowsBelow()) && Key(RowsBelow()[0]) == 6144 && Key(RowsBelow()[44]) == 59392
  {
    hide Key, Regular, Rows0, Rows1, Rows2, Rows3;
    Steps0();
    Steps1();
    Steps2();
    Steps3();
    Joined(Rows2(), Rows3());
    Joined(Rows1(), Rows2() + Rows3());
    Joined(Rows0(), Rows1() + (Rows2() + Rows3()));
  }

  lemma Ordered31()
    ensures Steps(Rows31()) && Key(Rows31()[0]) == 63488 && Key(Rows31()[144]) == 65516
  {
    hide Key, Regular, Rows4, Rows5, Rows6, Rows7, Rows8, Rows9;
    Steps4();
    Steps5();
    Steps6();
    Steps7();
    Steps8();
    Steps9();
    Joined(Rows8(), Rows9());
    Joined(Rows7(), Rows8() + Rows9());
    Joined(Rows6(), Rows7() + (Rows8() + Rows9()));
    Joined(Rows5(), Rows6() + (Rows7() + (Rows8() + Rows9())));
    Joined(Rows4(), Rows5() + (Rows6() + (Rows7() + (Rows8() + Rows9()))));
  }

  lemma RowsAreOrdered()
    ensures Steps(Rows())
  {
    hide Key, Regular, RowsBelow, Rows31, Rows10, Rows11;
    BelowIsOrdered();
    Ordered31();
    Steps10();
    Steps11();
    Joined(Rows10(), Rows11());
    Joined(Rows31(), RowsAbove());
    Joined(RowsBelow(), Rows31() + RowsAbove());
  }

  lemma {:induction false} Chain(rows: seq<OpRow>, i: nat, j: nat)
    requires Steps(rows) && i < j < |rows|
    ensures Key(rows[i]) < Key(rows[j])
    decreases j
  {
    hide Key, Regular;
    assert Key(rows[j - 1]) < Key(rows[j - 1 + 1]);
    if i < j - 1 {
      Chain(rows, i, j - 1);
    }
  }

  // ---- upper and lower bits

  lemma {:induction false} OrApart(v: nat, n: nat, m: nat)
    requires m < Pow2(n)
    ensures Or(Shl(v, n), m) == Shl(v, n) + m
    decreases n
  {
    hide Or;
    if n > 0 {
      OrBits(Shl(v, n), m);
      OrApart(v, n - 1, m / 2);
    } else {
      OrZero(v);
    }
  }

  lemma UpperSix(p: nat)
    ensures Shl(p, 26) == 0x400_0000 * p && Pow2(26) == 0x400_0000 && Pow2(11) == 0x800 && Pow2(6) == 0x40
  {
    hide Shl;
    ShlByte(p, 18);
    ShlByte(p, 10);
    ShlByte(p, 2);
    assert Shl(p, 2) == 4 * p by { ShlStep(p, 2); ShlStep(p, 1); assert Shl(p, 0) == p by { ShrShl(p, 0); } }
    assert Pow2(8) == 0x100 && Pow2(13) == 0x2000;
    assert Pow2(18) == 0x4_0000;
  }

  /** The word as opcode macros make it. */
  lemma Composed(p: six, m: eleven)
    ensures 0x400_0000 * p + m == Or(Shl(p, 26), m)
  {
    hide Or, Shl, Pow2;
    UpperSix(p);
    OrApart(p, 26, m);
  }

  lemma PrimaryOf(p: six, m: eleven)
    ensures Primary(0x400_0000 * p + m) == p
  {
    hide Or, Shl, Shr, Pow2;
    Composed(p, m);
    UpperSix(p);
    ShrOr(Shl(p, 26), m, 26);
    ShrShl(p, 26);
    ShrTooSmall(m, 11, 26);
    OrZero(p);
  }

  /** Between the lower bits and the upper six there is nothing. */
  lemma NothingBetween(p: six, m: eleven, k: nat, shift: nat, bits: nat)
    requires m < Pow2(k) && k <= shift && shift + bits <= 26
    ensures Field(0x400_0000 * p + m, shift, bits) == 0
  {
    hide Or, Shl, Shr, Pow2, Low;
    Composed(p, m);
    UpperSix(p);
    FieldOr(Shl(p, 26), m, shift, bits);
    FieldOfShl(p, 26, 6, shift, bits);
    ShrTooSmall(m, k, shift);
    LowIsAll(0, bits);
    OrZero(0);
  }

  lemma {:induction false} AndSwap(a: nat, b: nat)
    ensures And(a, b) == And(b, a)
  {
    if a > 0 && b > 0 {
      AndSwap(a / 2, b / 2);
    }
  }

  lemma LowerApart(p: six, m: eleven)
    ensures And(Shl(p, 26), m) == 0
  {
    hide And, Shl, Pow2, Low;
    UpperSix(p);
    AndSwap(Shl(p, 26), m);
    LowOfShl(p, 26, 11);
    AndLow(m, 11, Shl(p, 26));
  }

  /** Upper and lower bits are masked apart. */
  lemma Masked(p: six, m: eleven, low: eleven)
    requires And(m, low) == m
    ensures And(0x400_0000 * p + m, 0xFC00_0000 + low) == 0x400_0000 * p + m
  {
    hide And, Or, Shl, Pow2, Low, Field;
    Composed(p, m);
    Composed(0x3F, low);
    UpperSix(p);
    UpperSix(0x3F);
    var mask, upper := Or(Shl(0x3F, 26), low), Shl(0x3F, 26);
    AndOr(Shl(p, 26), m, mask);
    AndSwap(Shl(p, 26), mask);
    AndOr(upper, low, Shl(p, 26));
    AndBothShl(0x3F, p, 26);
    AndSwap(0x3F, p);
    AndOnes(p, 6);
    AndSwap(m, mask);
    AndOr(upper, low, m);
    AndSwap(low, Shl(p, 26));
    LowerApart(p, low);
    AndSwap(upper, m);
    AndSwap(m, Shl(0x3F, 26));
    LowerApart(0x3F, m);
    AndSwap(low, m);
    OrZero(Shl(p, 26));
    OrZero(m);
  }

  // ---- the entries

  function Table(sprs: seq<Spr>): (r: seq<Opcode>)
    ensures |r| == 206
  {
    seq(206, i requires 0 <= i < 206 => OpcodeOf(Rows()[i], sprs))
  }

  lemma SmallPowers()
    ensures Pow2(0) == 1 && Pow2(1) == 2 && Pow2(2) == 4 && Pow2(11) == 0x800
  {
    assert Pow2(5) == 32;
  }

  lemma SmallAnd()
    ensures And(2, 2) == 2
  {
    assert And(1, 1) == 1;
  }

  lemma LowFits(r: OpRow)
    ensures r.minor < Pow2(LowBits(r.primary)) && r.low < Pow2(LowBits(r.primary)) && And(r.minor, r.low) == r.minor
    ensures LowBits(r.primary) <= 11
  {
    hide And, Pow2;
    var n := LowBits(r.primary);
    SmallPowers();
    if r.primary == 17 {
      assert And(2, 2) == 2 by { SmallAnd(); }
    } else {
      assert r.low == Pow2(n) - 1;
      AndOnes(r.minor, n);
    }
  }

  /** Every entry: its operands do not overlap each other, the opcode or the mask, have the widths that the
      stepper takes for granted, and the mask keeps the opcode. */
  lemma EntryIsGood(r: OpRow, sprs: seq<Spr>)
    ensures var op := OpcodeOf(r, sprs);
            && WellFormed(op) && Positive(op) && OwnMask(op) && Typed(op)
            && Primary(op.code) == r.primary && Primary(op.mask) == 0x3F
  {
    hide And, Pow2, Field, Primary, Operands;
    var op, n := OpcodeOf(r, sprs), LowBits(r.primary);
    LowFits(r);
    OperandsFit(r.format, sprs);
    PrimaryOf(r.primary, r.minor);
    PrimaryOf(0x3F, r.low);
    Masked(r.primary, r.minor, r.low);
    forall i | 0 <= i < |op.fields|
      ensures var o := op.fields[i];
              Fitted(o, Lowest(r.format))
              && (!o.silent ==> Field(op.code, o.shift, o.bits) == 0 && Field(op.mask, o.shift, o.bits) == 0)
    {
      var o := op.fields[i];
      if !o.silent {
        NothingBetween(r.primary, r.minor, n, o.shift, o.bits);
        NothingBetween(0x3F, r.low, n, o.shift, o.bits);
      }
    }
  }

  lemma CodeOrder(a: OpRow, b: OpRow, sprs: seq<Spr>)
    ensures Key(a) < Key(b) ==> OpcodeOf(a, sprs).code < OpcodeOf(b, sprs).code
    ensures a.primary == b.primary ==> OpcodeOf(a, sprs).mask == OpcodeOf(b, sprs).mask
  {
    hide LowMask, Lowest, Operands;
  }

  /** The table is as the bisection needs it. */
  lemma TableIsGood(sprs: seq<Spr>)
    ensures GoodTable(Table(sprs)) && Grouped(Table(sprs)) && forall k :: 0 <= k < 206 ==> Typed(Table(sprs)[k])
  {
    hide Rows, Primary, Key, Regular, WellFormed, Positive, OwnMask, Typed, OpcodeOf;
    RowsAreOrdered();
    forall i | 0 <= i < 206
      ensures var op := OpcodeOf(Rows()[i], sprs);
              && WellFormed(op) && Positive(op) && OwnMask(op) && Typed(op)
              && Primary(op.code) == Rows()[i].primary && Primary(op.mask) == 0x3F
    {
      EntryIsGood(Rows()[i], sprs);
    }
    forall i, j | 0 <= i < j < 206
      ensures OpcodeOf(Rows()[i], sprs).code < OpcodeOf(Rows()[j], sprs).code
      ensures Rows()[i].primary == Rows()[j].primary ==>
                OpcodeOf(Rows()[i], sprs).mask == OpcodeOf(Rows()[j], sprs).mask
    {
      Chain(Rows(), i, j);
      CodeOrder(Rows()[i], Rows()[j], sprs);
    }
  }

  /** Every line that is assembled is read back with its opcode and its operands. */
  lemma AssembledByTable(sprs: seq<Spr>, memaddr: u32, s: string)
    ensures GoodTable(Table(sprs)) && ReadBack(memaddr, Table(sprs), s)
  {
    hide *;
    TableIsGood(sprs);
    LineIsReadBack(memaddr, Table(sprs), s);
  }

  /** Where the table has a direct branch. */
  function BranchAt(conditional: bool, aa: bool, lk: bool): (k: nat)
    ensures 9 <= k < 18
  {
    (if conditional then 9 else 14) + (if aa then 2 else 0) + if lk then 1 else 0
  }

  lemma BranchRows(conditional: bool, aa: bool, lk: bool)
    ensures var k := BranchAt(conditional, aa, lk); Rows()[k] == Rows1()[k - 9]
  {
    hide Rows0, Rows1, Rows2, Rows3, Rows31, RowsAbove;
  }

  lemma BranchEntries(sprs: seq<Spr>, conditional: bool, aa: bool, lk: bool)
    ensures Table(sprs)[BranchAt(conditional, aa, lk)] == Branch(conditional, aa, lk)
  {
    hide Rows, Regular;
    BranchRows(conditional, aa, lk);
  }

  lemma AssembledIsFollowed(sprs: seq<Spr>, conditional: bool, aa: bool, lk: bool,
                            nip: u32, s: string, p: nat, ctr: u32, cr: u32, lr: u32)
    requires p <= |s|
    ensures FollowedAsShown(Table(sprs), conditional, aa, lk, nip, s, p, ctr, cr, lr)
  {
    hide *;
    TableIsGood(sprs);
    BranchEntries(sprs, conditional, aa, lk);
    BranchIsFollowed(Table(sprs), BranchAt(conditional, aa, lk), conditional, aa, lk, nip, s, p, ctr, cr, lr);
  }
}
