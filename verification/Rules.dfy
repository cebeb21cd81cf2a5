/** Register-save rules: one row of the call-frame table. */
module Rules {
  import opened Words

  const NUM_REGS: nat := 17
  const CFA_REG_COLUMN: nat := 17
  const CFA_OFF_COLUMN: nat := 18
  const RBP: nat := 6
  const RSP: nat := 7
  const RIP: nat := 16

  /** `dwarf_where_t`. */
  datatype Where = Undef | Same | CfaRel | Reg | Expr

  datatype SaveLoc = SaveLoc(where: Where, val: Word)

  /** Seventeen registers and the two columns that describe the CFA. */
  type Row = r: seq<SaveLoc> | |r| == 19
    witness seq(19, _ => SaveLoc(Same, 0))

  /** The same rule in every column. */
  function Uniform(rule: SaveLoc): Row {
    seq(19, _ => rule)
  }

  const ALL_SAME: Row := Uniform(SaveLoc(Same, 0))

  /** At the entry of a function the CFA is RSP plus 8 and the return address is at CFA - 8. */
  const ENTRY_ROW: Row := ALL_SAME[CFA_REG_COLUMN := SaveLoc(Reg, RSP)][CFA_OFF_COLUMN := SaveLoc(Undef, 8)]
                                  [RIP := SaveLoc(CfaRel, 0xffff_ffff_ffff_fff8)]

  /** Past the push of RBP the CFA is RSP plus 16 and RBP is at CFA - 16. */
  const PUSHED_ROW: Row := ENTRY_ROW[CFA_OFF_COLUMN := SaveLoc(Undef, 16)][RBP := SaveLoc(CfaRel, 0xffff_ffff_ffff_fff0)]

  /** Once RBP is the frame pointer the CFA is RBP plus 16. */
  const FRAMED_ROW: Row := PUSHED_ROW[CFA_REG_COLUMN := SaveLoc(Reg, RBP)]
}
