/** The Ed25519 base point (x, 4/5) with x even. Section 5.1 of RFC 8032. */
module BasePoint {
  import opened Field
  import opened Edwards

  const BASE: Pt := Pt(0x2169_36d3_cd6e_53fe_c0a4_e231_fdd6_dc5c_692c_c760_9525_a7b2_c956_2d60_8f25_d51a,
                       0x6666_6666_6666_6666_6666_6666_6666_6666_6666_6666_6666_6666_6666_6666_6666_6658)

  lemma AboutBase()
    ensures OnCurve(BASE) && (5 * BASE.y) % P == 4 && BASE.x % 2 == 0
  {
    var xx, yy := BASE.x * BASE.x, BASE.y * BASE.y;
    var left, right := yy - xx, 1 + D * (xx * yy);
    hide Equation;
    CongWitness(left, right, (left - right) / P);
    OnCurveIs(BASE);
  }
}
