// The table of cached powers of ten and the choice of an entry for a binary exponent.
module CachedPowers {
  import opened Powers
  import opened DiyFps

  const ALPHA := -60
  const GAMMA := -32

  /** f * 2^e, an approximation of 10^k. */
  datatype CachedPower = CachedPower(f: u64, e: int, k: int)

  const MIN_DEC_EXP := -300
  const DEC_STEP := 8

  // The 79 entries, in the order of the source, cut into groups.

  const ROWS_M260: seq<CachedPower> := [
    CachedPower(0xAB70_FE17_C79A_C6CA, -1060, -300),
    CachedPower(0xFF77_B1FC_BEBC_DC4F, -1034, -292),
    CachedPower(0xBE56_91EF_416B_D60C, -1007, -284),
    CachedPower(0x8DD0_1FAD_907F_FC3C, -980, -276),
    CachedPower(0xD351_5C28_3155_9A83, -954, -268),
    CachedPower(0x9D71_AC8F_ADA6_C9B5, -927, -260)
  ]

  const ROWS_M196: seq<CachedPower> := [
    CachedPower(0xEA9C_2277_23EE_8BCB, -901, -252),
    CachedPower(0xAECC_4991_4078_536D, -874, -244),
    CachedPower(0x823C_1279_5DB6_CE57, -847, -236),
    CachedPower(0xC210_9436_4DFB_5637, -821, -228),
    CachedPower(0x9096_EA6F_3848_984F, -794, -220),
    CachedPower(0xD774_85CB_2582_3AC7, -768, -212),
    CachedPower(0xA086_CFCD_97BF_97F4, -741, -204),
    CachedPower(0xEF34_0A98_172A_ACE5, -715, -196)
  ]

  const ROWS_M132: seq<CachedPower> := [
    CachedPower(0xB238_67FB_2A35_B28E, -688, -188),
    CachedPower(0x84C8_D4DF_D2C6_3F3B, -661, -180),
    CachedPower(0xC5DD_4427_1AD3_CDBA, -635, -172),
    CachedPower(0x936B_9FCE_BB25_C996, -608, -164),
    CachedPower(0xDBAC_6C24_7D62_A584, -582, -156),
    CachedPower(0xA3AB_6658_0D5F_DAF6, -555, -148),
    CachedPower(0xF3E2_F893_DEC3_F126, -529, -140),
    CachedPower(0xB5B5_ADA8_AAFF_80B8, -502, -132)
  ]

  const ROWS_M68: seq<CachedPower> := [
    CachedPower(0x8762_5F05_6C7C_4A8B, -475, -124),
    CachedPower(0xC9BC_FF60_34C1_3053, -449, -116),
    CachedPower(0x964E_858C_91BA_2655, -422, -108),
    CachedPower(0xDFF9_7724_7029_7EBD, -396, -100),
    CachedPower(0xA6DF_BD9F_B8E5_B88F, -369, -92),
    CachedPower(0xF8A9_5FCF_8874_7D94, -343, -84),
    CachedPower(0xB944_7093_8FA8_9BCF, -316, -76),
    CachedPower(0x8A08_F0F8_BF0F_156B, -289, -68)
  ]

  const ROWS_M4: seq<CachedPower> := [
    CachedPower(0xCDB0_2555_6531_31B6, -263, -60),
    CachedPower(0x993F_E2C6_D07B_7FAC, -236, -52),
    CachedPower(0xE45C_10C4_2A2B_3B06, -210, -44),
    CachedPower(0xAA24_2499_6973_92D3, -183, -36),
    CachedPower(0xFD87_B5F2_8300_CA0E, -157, -28),
    CachedPower(0xBCE5_0864_9211_1AEB, -130, -20),
    CachedPower(0x8CBC_CC09_6F50_88CC, -103, -12),
    CachedPower(0xD1B7_1758_E219_652C, -77, -4)
  ]

  const ROWS_SMALL: seq<CachedPower> := [
    CachedPower(0x9C40_0000_0000_0000, -50, 4),
    CachedPower(0xE8D4_A510_0000_0000, -24, 12)
  ]

  const ROWS_P20: seq<CachedPower> := [
    CachedPower(0xAD78_EBC5_AC62_0000, 3, 20),
    CachedPower(0x813F_3978_F894_0984, 30, 28),
    CachedPower(0xC097_CE7B_C907_15B3, 56, 36),
    CachedPower(0x8F7E_32CE_7BEA_5C70, 83, 44),
    CachedPower(0xD5D2_38A4_ABE9_8068, 109, 52),
    CachedPower(0x9F4F_2726_179A_2245, 136, 60),
    CachedPower(0xED63_A231_D4C4_FB27, 162, 68),
    CachedPower(0xB0DE_6538_8CC8_ADA8, 189, 76)
  ]

  const ROWS_P84: seq<CachedPower> := [
    CachedPower(0x83C7_088E_1AAB_65DB, 216, 84),
    CachedPower(0xC45D_1DF9_4271_1D9A, 242, 92),
    CachedPower(0x924D_692C_A61B_E758, 269, 100),
    CachedPower(0xDA01_EE64_1A70_8DEA, 295, 108),
    CachedPower(0xA26D_A399_9AEF_774A, 322, 116),
    CachedPower(0xF209_787B_B47D_6B85, 348, 124),
    CachedPower(0xB454_E4A1_79DD_1877, 375, 132),
    CachedPower(0x865B_8692_5B9B_C5C2, 402, 140)
  ]

  const ROWS_P148: seq<CachedPower> := [
    CachedPower(0xC835_53C5_C896_5D3D, 428, 148),
    CachedPower(0x952A_B45C_FA97_A0B3, 455, 156),
    CachedPower(0xDE46_9FBD_99A0_5FE3, 481, 164),
    CachedPower(0xA59B_C234_DB39_8C25, 508, 172),
    CachedPower(0xF6C6_9A72_A398_9F5C, 534, 180),
    CachedPower(0xB7DC_BF53_54E9_BECE, 561, 188),
    CachedPower(0x88FC_F317_F222_41E2, 588, 196),
    CachedPower(0xCC20_CE9B_D35C_78A5, 614, 204)
  ]

  const ROWS_P212: seq<CachedPower> := [
    CachedPower(0x9816_5AF3_7B21_53DF, 641, 212),
    CachedPower(0xE2A0_B5DC_971F_303A, 667, 220),
    CachedPower(0xA8D9_D153_5CE3_B396, 694, 228),
    CachedPower(0xFB9B_7CD9_A4A7_443C, 720, 236),
    CachedPower(0xBB76_4C4C_A7A4_4410, 747, 244),
    CachedPower(0x8BAB_8EEF_B640_9C1A, 774, 252),
    CachedPower(0xD01F_EF10_A657_842C, 800, 260),
    CachedPower(0x9B10_A4E5_E991_3129, 827, 268)
  ]

  const ROWS_P276: seq<CachedPower> := [
    CachedPower(0xE710_9BFB_A19C_0C9D, 853, 276),
    CachedPower(0xAC28_20D9_623B_F429, 880, 284),
    CachedPower(0x8044_4B5E_7AA7_CF85, 907, 292),
    CachedPower(0xBF21_E440_03AC_DD2D, 933, 300),
    CachedPower(0x8E67_9C2F_5E44_FF8F, 960, 308),
    CachedPower(0xD433_179D_9C8C_B841, 986, 316),
    CachedPower(0x9E19_DB92_B4E3_1BA9, 1013, 324)
  ]

  const TABLE: seq<CachedPower> :=
    ROWS_M260 + ROWS_M196 + ROWS_M132 + ROWS_M68 + ROWS_M4 + ROWS_SMALL
    + ROWS_P20 + ROWS_P84 + ROWS_P148 + ROWS_P212 + ROWS_P276

  /** C++ integer division truncates toward zero. */
  function TruncDiv(a: int, b: int): int
    requires b > 0
  {
    if a < 0 then -((-a) / b) else a / b
  }

  function CachedIndex(e: int): int {
    var f := ALPHA - e - 1;
    var k := TruncDiv(f * 78913, 0x4_0000) + (if f > 0 then 1 else 0);
    TruncDiv(-MIN_DEC_EXP + k + (DEC_STEP - 1), DEC_STEP)
  }

  /** target lies within half a unit of f * unit. */
  predicate HalfUnit(f: int, unit: int, target: int) {
    (2 * f - 1) * unit <= 2 * target <= (2 * f + 1) * unit
  }

  /** The entry is normalized and within half a unit of its last place of 10^k. */
  predicate Accurate(c: CachedPower) {
    && c.f >= TWO_63
    && (if c.k < 0 then c.e < 0 && HalfUnit(c.f, Pow(10, -c.k), Pow(2, -c.e))
        else if c.e >= 0 then HalfUnit(c.f, Pow(2, c.e), Pow(10, c.k))
        else c.f == Pow(2, -c.e) * Pow(10, c.k))
  }

  /** The exponent of a product with a number of exponent e lies where digit generation needs it. */
  predicate InWindow(c: CachedPower, e: int) {
    ALPHA <= c.e + e + 64 <= GAMMA
  }

  /**
   * For every exponent the function admits by its first two assertions, its last four assertions hold exactly
   * when e is in [-1137, 964].
   */
  lemma LookupSafe(e: int)
    requires -1500 <= e <= 1500
    ensures |TABLE| == 79
    ensures -1137 <= e <= 964 <==>
      (0 <= CachedIndex(e) < |TABLE| && InWindow(TABLE[CachedIndex(e)], e))
  {
    if -1137 <= e <= 964 {
      TableRows(CachedIndex(e), e);
    } else if e > 964 {
      assert CachedIndex(e) <= 0;
      TableRows(0, 0);
    } else {
      assert CachedIndex(e) >= 79;
      TableRows(0, 0);
    }
  }

  /** Every entry of the table is accurate, and the one chosen for e brings the product into the window. */
  function GetCachedPower(e: int): (c: CachedPower)
    requires -1137 <= e <= 964
    ensures Accurate(c) && InWindow(c, e)
    ensures -300 <= c.k <= 324
  {
    LookupSafe(e);
    TableRows(CachedIndex(e), e);
    TABLE[CachedIndex(e)]
  }

  lemma TableRows(i: nat, e: int)
    requires i < 79 && -1500 <= e <= 964
    ensures |TABLE| == 79
    ensures Accurate(TABLE[i]) && -300 <= TABLE[i].k <= 324
    ensures CachedIndex(e) == i ==> InWindow(TABLE[i], e)
    ensures TABLE[0].e == -1060
  {
    hide Accurate, InWindow, CachedIndex;
    if 0 <= i < 6 { RowsM260(i - 0, e); }
    if 6 <= i < 14 { RowsM196(i - 6, e); }
    if 14 <= i < 22 { RowsM132(i - 14, e); }
    if 22 <= i < 30 { RowsM68(i - 22, e); }
    if 30 <= i < 38 { RowsM4(i - 30, e); }
    if 38 <= i < 40 { RowsSMALL(i - 38, e); }
    if 40 <= i < 48 { RowsP20(i - 40, e); }
    if 48 <= i < 56 { RowsP84(i - 48, e); }
    if 56 <= i < 64 { RowsP148(i - 56, e); }
    if 64 <= i < 72 { RowsP212(i - 64, e); }
    if 72 <= i < 79 { RowsP276(i - 72, e); }
  }

  // ---------------------------------------------------------------- the rows, one group at a time

  const TEN_60 := 1000000000000000000000000000000000000000000000000000000000000
  const TWO_256 := 0x10000000000000000000000000000000000000000000000000000000000000000

  lemma PowerSteps(a: nat, b: nat)
    ensures Pow(10, a + 8) == 100000000 * Pow(10, a)
    ensures Pow(2, b + 26) == 0x400_0000 * Pow(2, b)
    ensures Pow(2, b + 27) == 0x800_0000 * Pow(2, b)
  {
    PowerConstants();
    PowAdd(2, 16, 8);
    assert Pow(2, 2) == 4;
    PowAdd(2, 24, 2);
    PowAdd(10, 8, a);
    PowAdd(2, 26, b);
    PowAdd(2, 27, b);
  }

  lemma AccurateM4()
    ensures HalfUnit(0xD1B7_1758_E219_652C, Pow(10, 4), Pow(2, 77))
    ensures HalfUnit(0x8CBC_CC09_6F50_88CC, Pow(10, 12), Pow(2, 103))
    ensures HalfUnit(0xBCE5_0864_9211_1AEB, Pow(10, 20), Pow(2, 130))
    ensures HalfUnit(0xFD87_B5F2_8300_CA0E, Pow(10, 28), Pow(2, 157))
    ensures HalfUnit(0xAA24_2499_6973_92D3, Pow(10, 36), Pow(2, 183))
    ensures HalfUnit(0xE45C_10C4_2A2B_3B06, Pow(10, 44), Pow(2, 210))
    ensures HalfUnit(0x993F_E2C6_D07B_7FAC, Pow(10, 52), Pow(2, 236))
    ensures HalfUnit(0xCDB0_2555_6531_31B6, Pow(10, 60), Pow(2, 263))
    ensures Pow(10, 60) == 1000000000000000000000000000000000000000000000000000000000000
    ensures Pow(2, 263) == 0x800000000000000000000000000000000000000000000000000000000000000000
  {
    StartNegative();
    hide Pow;
    var p4, q77 := 10000, 0x20000000000000000000;
    assert HalfUnit(0xD1B7_1758_E219_652C, p4, q77);
    PowerSteps(4, 77);
    var p12, q103 := 100000000 * p4, 0x400_0000 * q77;
    assert HalfUnit(0x8CBC_CC09_6F50_88CC, p12, q103);
    PowerSteps(12, 103);
    var p20, q130 := 100000000 * p12, 0x800_0000 * q103;
    assert HalfUnit(0xBCE5_0864_9211_1AEB, p20, q130);
    PowerSteps(20, 130);
    var p28, q157 := 100000000 * p20, 0x800_0000 * q130;
    assert HalfUnit(0xFD87_B5F2_8300_CA0E, p28, q157);
    PowerSteps(28, 157);
    var p36, q183 := 100000000 * p28, 0x400_0000 * q157;
    assert HalfUnit(0xAA24_2499_6973_92D3, p36, q183);
    PowerSteps(36, 183);
    var p44, q210 := 100000000 * p36, 0x800_0000 * q183;
    assert HalfUnit(0xE45C_10C4_2A2B_3B06, p44, q210);
    PowerSteps(44, 210);
    var p52, q236 := 100000000 * p44, 0x400_0000 * q210;
    assert HalfUnit(0x993F_E2C6_D07B_7FAC, p52, q236);
    PowerSteps(52, 236);
    var p60, q263 := 100000000 * p52, 0x800_0000 * q236;
    assert HalfUnit(0xCDB0_2555_6531_31B6, p60, q263);
  }

  lemma RowsM4(i: nat, e: int)
    requires i < |ROWS_M4| && -1500 <= e <= 964
    ensures Accurate(ROWS_M4[i]) && -300 <= ROWS_M4[i].k <= 324
    ensures CachedIndex(e) == 30 + i ==> InWindow(ROWS_M4[i], e)
  {
    AccurateM4();
    hide Pow, HalfUnit;
    assert ROWS_M4[0] == CachedPower(0xCDB0_2555_6531_31B6, -263, -60);
    assert ROWS_M4[1] == CachedPower(0x993F_E2C6_D07B_7FAC, -236, -52);
    assert ROWS_M4[2] == CachedPower(0xE45C_10C4_2A2B_3B06, -210, -44);
    assert ROWS_M4[3] == CachedPower(0xAA24_2499_6973_92D3, -183, -36);
    assert ROWS_M4[4] == CachedPower(0xFD87_B5F2_8300_CA0E, -157, -28);
    assert ROWS_M4[5] == CachedPower(0xBCE5_0864_9211_1AEB, -130, -20);
    assert ROWS_M4[6] == CachedPower(0x8CBC_CC09_6F50_88CC, -103, -12);
    assert ROWS_M4[7] == CachedPower(0xD1B7_1758_E219_652C, -77, -4);
  }

  lemma AccurateM68()
    ensures HalfUnit(0x8A08_F0F8_BF0F_156B, Pow(10, 68), Pow(2, 289))
    ensures HalfUnit(0xB944_7093_8FA8_9BCF, Pow(10, 76), Pow(2, 316))
    ensures HalfUnit(0xF8A9_5FCF_8874_7D94, Pow(10, 84), Pow(2, 343))
    ensures HalfUnit(0xA6DF_BD9F_B8E5_B88F, Pow(10, 92), Pow(2, 369))
    ensures HalfUnit(0xDFF9_7724_7029_7EBD, Pow(10, 100), Pow(2, 396))
    ensures HalfUnit(0x964E_858C_91BA_2655, Pow(10, 108), Pow(2, 422))
    ensures HalfUnit(0xC9BC_FF60_34C1_3053, Pow(10, 116), Pow(2, 449))
    ensures HalfUnit(0x8762_5F05_6C7C_4A8B, Pow(10, 124), Pow(2, 475))
    ensures Pow(10, 124) == TEN_60 * TEN_60 * 10000
    ensures Pow(2, 475) == TWO_256 * 0x8000000000000000000000000000000000000000000000000000000
  {
    AccurateM4();
    hide Pow;
    var p60, q263 := Pow(10, 60), Pow(2, 263);
    PowerSteps(60, 263);
    var p68, q289 := 100000000 * p60, 0x400_0000 * q263;
    assert HalfUnit(0x8A08_F0F8_BF0F_156B, p68, q289);
    PowerSteps(68, 289);
    var p76, q316 := 100000000 * p68, 0x800_0000 * q289;
    assert HalfUnit(0xB944_7093_8FA8_9BCF, p76, q316);
    PowerSteps(76, 316);
    var p84, q343 := 100000000 * p76, 0x800_0000 * q316;
    assert HalfUnit(0xF8A9_5FCF_8874_7D94, p84, q343);
    PowerSteps(84, 343);
    var p92, q369 := 100000000 * p84, 0x400_0000 * q343;
    assert HalfUnit(0xA6DF_BD9F_B8E5_B88F, p92, q369);
    PowerSteps(92, 369);
    var p100, q396 := 100000000 * p92, 0x800_0000 * q369;
    assert HalfUnit(0xDFF9_7724_7029_7EBD, p100, q396);
    PowerSteps(100, 396);
    var p108, q422 := 100000000 * p100, 0x400_0000 * q396;
    assert HalfUnit(0x964E_858C_91BA_2655, p108, q422);
    PowerSteps(108, 422);
    var p116, q449 := 100000000 * p108, 0x800_0000 * q422;
    assert HalfUnit(0xC9BC_FF60_34C1_3053, p116, q449);
    PowerSteps(116, 449);
    var p124, q475 := 100000000 * p116, 0x400_0000 * q449;
    assert HalfUnit(0x8762_5F05_6C7C_4A8B, p124, q475);
  }

  lemma RowsM68(i: nat, e: int)
    requires i < |ROWS_M68| && -1500 <= e <= 964
    ensures Accurate(ROWS_M68[i]) && -300 <= ROWS_M68[i].k <= 324
    ensures CachedIndex(e) == 22 + i ==> InWindow(ROWS_M68[i], e)
  {
    AccurateM68();
    hide Pow, HalfUnit;
    assert ROWS_M68[0] == CachedPower(0x8762_5F05_6C7C_4A8B, -475, -124);
    assert ROWS_M68[1] == CachedPower(0xC9BC_FF60_34C1_3053, -449, -116);
    assert ROWS_M68[2] == CachedPower(0x964E_858C_91BA_2655, -422, -108);
    assert ROWS_M68[3] == CachedPower(0xDFF9_7724_7029_7EBD, -396, -100);
    assert ROWS_M68[4] == CachedPower(0xA6DF_BD9F_B8E5_B88F, -369, -92);
    assert ROWS_M68[5] == CachedPower(0xF8A9_5FCF_8874_7D94, -343, -84);
    assert ROWS_M68[6] == CachedPower(0xB944_7093_8FA8_9BCF, -316, -76);
    assert ROWS_M68[7] == CachedPower(0x8A08_F0F8_BF0F_156B, -289, -68);
  }

  lemma AccurateM132()
    ensures HalfUnit(0xB5B5_ADA8_AAFF_80B8, Pow(10, 132), Pow(2, 502))
    ensures HalfUnit(0xF3E2_F893_DEC3_F126, Pow(10, 140), Pow(2, 529))
    ensures HalfUnit(0xA3AB_6658_0D5F_DAF6, Pow(10, 148), Pow(2, 555))
    ensures HalfUnit(0xDBAC_6C24_7D62_A584, Pow(10, 156), Pow(2, 582))
    ensures HalfUnit(0x936B_9FCE_BB25_C996, Pow(10, 164), Pow(2, 608))
    ensures HalfUnit(0xC5DD_4427_1AD3_CDBA, Pow(10, 172), Pow(2, 635))
    ensures HalfUnit(0x84C8_D4DF_D2C6_3F3B, Pow(10, 180), Pow(2, 661))
    ensures HalfUnit(0xB238_67FB_2A35_B28E, Pow(10, 188), Pow(2, 688))
    ensures Pow(10, 188) == TEN_60 * TEN_60 * TEN_60 * 100000000
    ensures Pow(2, 688) == TWO_256 * TWO_256 * 0x100000000000000000000000000000000000000000000
  {
    AccurateM68();
    hide Pow;
    var p124, q475 := Pow(10, 124), Pow(2, 475);
    PowerSteps(124, 475);
    var p132, q502 := 100000000 * p124, 0x800_0000 * q475;
    assert HalfUnit(0xB5B5_ADA8_AAFF_80B8, p132, q502);
    PowerSteps(132, 502);
    var p140, q529 := 100000000 * p132, 0x800_0000 * q502;
    assert HalfUnit(0xF3E2_F893_DEC3_F126, p140, q529);
    PowerSteps(140, 529);
    var p148, q555 := 100000000 * p140, 0x400_0000 * q529;
    assert HalfUnit(0xA3AB_6658_0D5F_DAF6, p148, q555);
    PowerSteps(148, 555);
    var p156, q582 := 100000000 * p148, 0x800_0000 * q555;
    assert HalfUnit(0xDBAC_6C24_7D62_A584, p156, q582);
    PowerSteps(156, 582);
    var p164, q608 := 100000000 * p156, 0x400_0000 * q582;
    assert HalfUnit(0x936B_9FCE_BB25_C996, p164, q608);
    PowerSteps(164, 608);
    var p172, q635 := 100000000 * p164, 0x800_0000 * q608;
    assert HalfUnit(0xC5DD_4427_1AD3_CDBA, p172, q635);
    PowerSteps(172, 635);
    var p180, q661 := 100000000 * p172, 0x400_0000 * q635;
    assert HalfUnit(0x84C8_D4DF_D2C6_3F3B, p180, q661);
    PowerSteps(180, 661);
    var p188, q688 := 100000000 * p180, 0x800_0000 * q661;
    assert HalfUnit(0xB238_67FB_2A35_B28E, p188, q688);
  }

  lemma RowsM132(i: nat, e: int)
    requires i < |ROWS_M132| && -1500 <= e <= 964
    ensures Accurate(ROWS_M132[i]) && -300 <= ROWS_M132[i].k <= 324
    ensures CachedIndex(e) == 14 + i ==> InWindow(ROWS_M132[i], e)
  {
    AccurateM132();
    hide Pow, HalfUnit;
    assert ROWS_M132[0] == CachedPower(0xB238_67FB_2A35_B28E, -688, -188);
    assert ROWS_M132[1] == CachedPower(0x84C8_D4DF_D2C6_3F3B, -661, -180);
    assert ROWS_M132[2] == CachedPower(0xC5DD_4427_1AD3_CDBA, -635, -172);
    assert ROWS_M132[3] == CachedPower(0x936B_9FCE_BB25_C996, -608, -164);
    assert ROWS_M132[4] == CachedPower(0xDBAC_6C24_7D62_A584, -582, -156);
    assert ROWS_M132[5] == CachedPower(0xA3AB_6658_0D5F_DAF6, -555, -148);
    assert ROWS_M132[6] == CachedPower(0xF3E2_F893_DEC3_F126, -529, -140);
    assert ROWS_M132[7] == CachedPower(0xB5B5_ADA8_AAFF_80B8, -502, -132);
  }

  lemma AccurateM196()
    ensures HalfUnit(0xEF34_0A98_172A_ACE5, Pow(10, 196), Pow(2, 715))
    ensures HalfUnit(0xA086_CFCD_97BF_97F4, Pow(10, 204), Pow(2, 741))
    ensures HalfUnit(0xD774_85CB_2582_3AC7, Pow(10, 212), Pow(2, 768))
    ensures HalfUnit(0x9096_EA6F_3848_984F, Pow(10, 220), Pow(2, 794))
    ensures HalfUnit(0xC210_9436_4DFB_5637, Pow(10, 228), Pow(2, 821))
    ensures HalfUnit(0x823C_1279_5DB6_CE57, Pow(10, 236), Pow(2, 847))
    ensures HalfUnit(0xAECC_4991_4078_536D, Pow(10, 244), Pow(2, 874))
    ensures HalfUnit(0xEA9C_2277_23EE_8BCB, Pow(10, 252), Pow(2, 901))
    ensures Pow(10, 252) == TEN_60 * TEN_60 * TEN_60 * TEN_60 * 1000000000000
    ensures Pow(2, 901) == TWO_256 * TWO_256 * TWO_256 * 0x2000000000000000000000000000000000
  {
    AccurateM132();
    hide Pow;
    var p188, q688 := Pow(10, 188), Pow(2, 688);
    PowerSteps(188, 688);
    var p196, q715 := 100000000 * p188, 0x800_0000 * q688;
    assert HalfUnit(0xEF34_0A98_172A_ACE5, p196, q715);
    PowerSteps(196, 715);
    var p204, q741 := 100000000 * p196, 0x400_0000 * q715;
    assert HalfUnit(0xA086_CFCD_97BF_97F4, p204, q741);
    PowerSteps(204, 741);
    var p212, q768 := 100000000 * p204, 0x800_0000 * q741;
    assert HalfUnit(0xD774_85CB_2582_3AC7, p212, q768);
    PowerSteps(212, 768);
    var p220, q794 := 100000000 * p212, 0x400_0000 * q768;
    assert HalfUnit(0x9096_EA6F_3848_984F, p220, q794);
    PowerSteps(220, 794);
    var p228, q821 := 100000000 * p220, 0x800_0000 * q794;
    assert HalfUnit(0xC210_9436_4DFB_5637, p228, q821);
    PowerSteps(228, 821);
    var p236, q847 := 100000000 * p228, 0x400_0000 * q821;
    assert HalfUnit(0x823C_1279_5DB6_CE57, p236, q847);
    PowerSteps(236, 847);
    var p244, q874 := 100000000 * p236, 0x800_0000 * q847;
    assert HalfUnit(0xAECC_4991_4078_536D, p244, q874);
    PowerSteps(244, 874);
    var p252, q901 := 100000000 * p244, 0x800_0000 * q874;
    assert HalfUnit(0xEA9C_2277_23EE_8BCB, p252, q901);
  }

  lemma RowsM196(i: nat, e: int)
    requires i < |ROWS_M196| && -1500 <= e <= 964
    ensures Accurate(ROWS_M196[i]) && -300 <= ROWS_M196[i].k <= 324
    ensures CachedIndex(e) == 6 + i ==> InWindow(ROWS_M196[i], e)
  {
    AccurateM196();
    hide Pow, HalfUnit;
    assert ROWS_M196[0] == CachedPower(0xEA9C_2277_23EE_8BCB, -901, -252);
    assert ROWS_M196[1] == CachedPower(0xAECC_4991_4078_536D, -874, -244);
    assert ROWS_M196[2] == CachedPower(0x823C_1279_5DB6_CE57, -847, -236);
    assert ROWS_M196[3] == CachedPower(0xC210_9436_4DFB_5637, -821, -228);
    assert ROWS_M196[4] == CachedPower(0x9096_EA6F_3848_984F, -794, -220);
    assert ROWS_M196[5] == CachedPower(0xD774_85CB_2582_3AC7, -768, -212);
    assert ROWS_M196[6] == CachedPower(0xA086_CFCD_97BF_97F4, -741, -204);
    assert ROWS_M196[7] == CachedPower(0xEF34_0A98_172A_ACE5, -715, -196);
  }

  lemma AccurateM260()
    ensures HalfUnit(0x9D71_AC8F_ADA6_C9B5, Pow(10, 260), Pow(2, 927))
    ensures HalfUnit(0xD351_5C28_3155_9A83, Pow(10, 268), Pow(2, 954))
    ensures HalfUnit(0x8DD0_1FAD_907F_FC3C, Pow(10, 276), Pow(2, 980))
    ensures HalfUnit(0xBE56_91EF_416B_D60C, Pow(10, 284), Pow(2, 1007))
    ensures HalfUnit(0xFF77_B1FC_BEBC_DC4F, Pow(10, 292), Pow(2, 1034))
    ensures HalfUnit(0xAB70_FE17_C79A_C6CA, Pow(10, 300), Pow(2, 1060))
    ensures Pow(10, 300) == TEN_60 * TEN_60 * TEN_60 * TEN_60 * TEN_60
    ensures Pow(2, 1060) == TWO_256 * TWO_256 * TWO_256 * TWO_256 * 0x1000000000
  {
    AccurateM196();
    hide Pow;
    var p252, q901 := Pow(10, 252), Pow(2, 901);
    PowerSteps(252, 901);
    var p260, q927 := 100000000 * p252, 0x400_0000 * q901;
    assert HalfUnit(0x9D71_AC8F_ADA6_C9B5, p260, q927);
    PowerSteps(260, 927);
    var p268, q954 := 100000000 * p260, 0x800_0000 * q927;
    assert HalfUnit(0xD351_5C28_3155_9A83, p268, q954);
    PowerSteps(268, 954);
    var p276, q980 := 100000000 * p268, 0x400_0000 * q954;
    assert HalfUnit(0x8DD0_1FAD_907F_FC3C, p276, q980);
    PowerSteps(276, 980);
    var p284, q1007 := 100000000 * p276, 0x800_0000 * q980;
    assert HalfUnit(0xBE56_91EF_416B_D60C, p284, q1007);
    PowerSteps(284, 1007);
    var p292, q1034 := 100000000 * p284, 0x800_0000 * q1007;
    assert HalfUnit(0xFF77_B1FC_BEBC_DC4F, p292, q1034);
    PowerSteps(292, 1034);
    var p300, q1060 := 100000000 * p292, 0x400_0000 * q1034;
    assert HalfUnit(0xAB70_FE17_C79A_C6CA, p300, q1060);
  }

  lemma RowsM260(i: nat, e: int)
    requires i < |ROWS_M260| && -1500 <= e <= 964
    ensures Accurate(ROWS_M260[i]) && -300 <= ROWS_M260[i].k <= 324
    ensures CachedIndex(e) == 0 + i ==> InWindow(ROWS_M260[i], e)
    ensures ROWS_M260[0].e == -1060
  {
    AccurateM260();
    hide Pow, HalfUnit;
    assert ROWS_M260[0] == CachedPower(0xAB70_FE17_C79A_C6CA, -1060, -300);
    assert ROWS_M260[1] == CachedPower(0xFF77_B1FC_BEBC_DC4F, -1034, -292);
    assert ROWS_M260[2] == CachedPower(0xBE56_91EF_416B_D60C, -1007, -284);
    assert ROWS_M260[3] == CachedPower(0x8DD0_1FAD_907F_FC3C, -980, -276);
    assert ROWS_M260[4] == CachedPower(0xD351_5C28_3155_9A83, -954, -268);
    assert ROWS_M260[5] == CachedPower(0x9D71_AC8F_ADA6_C9B5, -927, -260);
  }

  lemma AccurateP20()
    ensures HalfUnit(0xAD78_EBC5_AC62_0000, Pow(2, 3), Pow(10, 20))
    ensures HalfUnit(0x813F_3978_F894_0984, Pow(2, 30), Pow(10, 28))
    ensures HalfUnit(0xC097_CE7B_C907_15B3, Pow(2, 56), Pow(10, 36))
    ensures HalfUnit(0x8F7E_32CE_7BEA_5C70, Pow(2, 83), Pow(10, 44))
    ensures HalfUnit(0xD5D2_38A4_ABE9_8068, Pow(2, 109), Pow(10, 52))
    ensures HalfUnit(0x9F4F_2726_179A_2245, Pow(2, 136), Pow(10, 60))
    ensures HalfUnit(0xED63_A231_D4C4_FB27, Pow(2, 162), Pow(10, 68))
    ensures HalfUnit(0xB0DE_6538_8CC8_ADA8, Pow(2, 189), Pow(10, 76))
    ensures Pow(10, 76) == 10000000000000000000000000000000000000000000000000000000000000000000000000000
    ensures Pow(2, 189) == 0x200000000000000000000000000000000000000000000000
  {
    StartPositive();
    hide Pow;
    var p20, q3 := 100000000000000000000, 0x8;
    assert HalfUnit(0xAD78_EBC5_AC62_0000, q3, p20);
    PowerSteps(20, 3);
    var p28, q30 := 100000000 * p20, 0x800_0000 * q3;
    assert HalfUnit(0x813F_3978_F894_0984, q30, p28);
    PowerSteps(28, 30);
    var p36, q56 := 100000000 * p28, 0x400_0000 * q30;
    assert HalfUnit(0xC097_CE7B_C907_15B3, q56, p36);
    PowerSteps(36, 56);
    var p44, q83 := 100000000 * p36, 0x800_0000 * q56;
    assert HalfUnit(0x8F7E_32CE_7BEA_5C70, q83, p44);
    PowerSteps(44, 83);
    var p52, q109 := 100000000 * p44, 0x400_0000 * q83;
    assert HalfUnit(0xD5D2_38A4_ABE9_8068, q109, p52);
    PowerSteps(52, 109);
    var p60, q136 := 100000000 * p52, 0x800_0000 * q109;
    assert HalfUnit(0x9F4F_2726_179A_2245, q136, p60);
    PowerSteps(60, 136);
    var p68, q162 := 100000000 * p60, 0x400_0000 * q136;
    assert HalfUnit(0xED63_A231_D4C4_FB27, q162, p68);
    PowerSteps(68, 162);
    var p76, q189 := 100000000 * p68, 0x800_0000 * q162;
    assert HalfUnit(0xB0DE_6538_8CC8_ADA8, q189, p76);
  }

  lemma RowsP20(i: nat, e: int)
    requires i < |ROWS_P20| && -1500 <= e <= 964
    ensures Accurate(ROWS_P20[i]) && -300 <= ROWS_P20[i].k <= 324
    ensures CachedIndex(e) == 40 + i ==> InWindow(ROWS_P20[i], e)
  {
    AccurateP20();
    hide Pow, HalfUnit;
    assert ROWS_P20[0] == CachedPower(0xAD78_EBC5_AC62_0000, 3, 20);
    assert ROWS_P20[1] == CachedPower(0x813F_3978_F894_0984, 30, 28);
    assert ROWS_P20[2] == CachedPower(0xC097_CE7B_C907_15B3, 56, 36);
    assert ROWS_P20[3] == CachedPower(0x8F7E_32CE_7BEA_5C70, 83, 44);
    assert ROWS_P20[4] == CachedPower(0xD5D2_38A4_ABE9_8068, 109, 52);
    assert ROWS_P20[5] == CachedPower(0x9F4F_2726_179A_2245, 136, 60);
    assert ROWS_P20[6] == CachedPower(0xED63_A231_D4C4_FB27, 162, 68);
    assert ROWS_P20[7] == CachedPower(0xB0DE_6538_8CC8_ADA8, 189, 76);
  }

  lemma AccurateP84()
    ensures HalfUnit(0x83C7_088E_1AAB_65DB, Pow(2, 216), Pow(10, 84))
    ensures HalfUnit(0xC45D_1DF9_4271_1D9A, Pow(2, 242), Pow(10, 92))
    ensures HalfUnit(0x924D_692C_A61B_E758, Pow(2, 269), Pow(10, 100))
    ensures HalfUnit(0xDA01_EE64_1A70_8DEA, Pow(2, 295), Pow(10, 108))
    ensures HalfUnit(0xA26D_A399_9AEF_774A, Pow(2, 322), Pow(10, 116))
    ensures HalfUnit(0xF209_787B_B47D_6B85, Pow(2, 348), Pow(10, 124))
    ensures HalfUnit(0xB454_E4A1_79DD_1877, Pow(2, 375), Pow(10, 132))
    ensures HalfUnit(0x865B_8692_5B9B_C5C2, Pow(2, 402), Pow(10, 140))
    ensures Pow(10, 140) == TEN_60 * TEN_60 * 100000000000000000000
    ensures Pow(2, 402) == TWO_256 * 0x4000000000000000000000000000000000000
  {
    AccurateP20();
    hide Pow;
    var p76, q189 := Pow(10, 76), Pow(2, 189);
    PowerSteps(76, 189);
    var p84, q216 := 100000000 * p76, 0x800_0000 * q189;
    assert HalfUnit(0x83C7_088E_1AAB_65DB, q216, p84);
    PowerSteps(84, 216);
    var p92, q242 := 100000000 * p84, 0x400_0000 * q216;
    assert HalfUnit(0xC45D_1DF9_4271_1D9A, q242, p92);
    PowerSteps(92, 242);
    var p100, q269 := 100000000 * p92, 0x800_0000 * q242;
    assert HalfUnit(0x924D_692C_A61B_E758, q269, p100);
    PowerSteps(100, 269);
    var p108, q295 := 100000000 * p100, 0x400_0000 * q269;
    assert HalfUnit(0xDA01_EE64_1A70_8DEA, q295, p108);
    PowerSteps(108, 295);
    var p116, q322 := 100000000 * p108, 0x800_0000 * q295;
    assert HalfUnit(0xA26D_A399_9AEF_774A, q322, p116);
    PowerSteps(116, 322);
    var p124, q348 := 100000000 * p116, 0x400_0000 * q322;
    assert HalfUnit(0xF209_787B_B47D_6B85, q348, p124);
    PowerSteps(124, 348);
    var p132, q375 := 100000000 * p124, 0x800_0000 * q348;
    assert HalfUnit(0xB454_E4A1_79DD_1877, q375, p132);
    PowerSteps(132, 375);
    var p140, q402 := 100000000 * p132, 0x800_0000 * q375;
    assert HalfUnit(0x865B_8692_5B9B_C5C2, q402, p140);
  }

  lemma RowsP84(i: nat, e: int)
    requires i < |ROWS_P84| && -1500 <= e <= 964
    ensures Accurate(ROWS_P84[i]) && -300 <= ROWS_P84[i].k <= 324
    ensures CachedIndex(e) == 48 + i ==> InWindow(ROWS_P84[i], e)
  {
    AccurateP84();
    hide Pow, HalfUnit;
    assert ROWS_P84[0] == CachedPower(0x83C7_088E_1AAB_65DB, 216, 84);
    assert ROWS_P84[1] == CachedPower(0xC45D_1DF9_4271_1D9A, 242, 92);
    assert ROWS_P84[2] == CachedPower(0x924D_692C_A61B_E758, 269, 100);
    assert ROWS_P84[3] == CachedPower(0xDA01_EE64_1A70_8DEA, 295, 108);
    assert ROWS_P84[4] == CachedPower(0xA26D_A399_9AEF_774A, 322, 116);
    assert ROWS_P84[5] == CachedPower(0xF209_787B_B47D_6B85, 348, 124);
    assert ROWS_P84[6] == CachedPower(0xB454_E4A1_79DD_1877, 375, 132);
    assert ROWS_P84[7] == CachedPower(0x865B_8692_5B9B_C5C2, 402, 140);
  }

  lemma AccurateP148()
    ensures HalfUnit(0xC835_53C5_C896_5D3D, Pow(2, 428), Pow(10, 148))
    ensures HalfUnit(0x952A_B45C_FA97_A0B3, Pow(2, 455), Pow(10, 156))
    ensures HalfUnit(0xDE46_9FBD_99A0_5FE3, Pow(2, 481), Pow(10, 164))
    ensures HalfUnit(0xA59B_C234_DB39_8C25, Pow(2, 508), Pow(10, 172))
    ensures HalfUnit(0xF6C6_9A72_A398_9F5C, Pow(2, 534), Pow(10, 180))
    ensures HalfUnit(0xB7DC_BF53_54E9_BECE, Pow(2, 561), Pow(10, 188))
    ensures HalfUnit(0x88FC_F317_F222_41E2, Pow(2, 588), Pow(10, 196))
    ensures HalfUnit(0xCC20_CE9B_D35C_78A5, Pow(2, 614), Pow(10, 204))
    ensures Pow(10, 204) == TEN_60 * TEN_60 * TEN_60 * 1000000000000000000000000
    ensures Pow(2, 614) == TWO_256 * TWO_256 * 0x40000000000000000000000000
  {
    AccurateP84();
    hide Pow;
    var p140, q402 := Pow(10, 140), Pow(2, 402);
    PowerSteps(140, 402);
    var p148, q428 := 100000000 * p140, 0x400_0000 * q402;
    assert HalfUnit(0xC835_53C5_C896_5D3D, q428, p148);
    PowerSteps(148, 428);
    var p156, q455 := 100000000 * p148, 0x800_0000 * q428;
    assert HalfUnit(0x952A_B45C_FA97_A0B3, q455, p156);
    PowerSteps(156, 455);
    var p164, q481 := 100000000 * p156, 0x400_0000 * q455;
    assert HalfUnit(0xDE46_9FBD_99A0_5FE3, q481, p164);
    PowerSteps(164, 481);
    var p172, q508 := 100000000 * p164, 0x800_0000 * q481;
    assert HalfUnit(0xA59B_C234_DB39_8C25, q508, p172);
    PowerSteps(172, 508);
    var p180, q534 := 100000000 * p172, 0x400_0000 * q508;
    assert HalfUnit(0xF6C6_9A72_A398_9F5C, q534, p180);
    PowerSteps(180, 534);
    var p188, q561 := 100000000 * p180, 0x800_0000 * q534;
    assert HalfUnit(0xB7DC_BF53_54E9_BECE, q561, p188);
    PowerSteps(188, 561);
    var p196, q588 := 100000000 * p188, 0x800_0000 * q561;
    assert HalfUnit(0x88FC_F317_F222_41E2, q588, p196);
    PowerSteps(196, 588);
    var p204, q614 := 100000000 * p196, 0x400_0000 * q588;
    assert HalfUnit(0xCC20_CE9B_D35C_78A5, q614, p204);
  }

  lemma RowsP148(i: nat, e: int)
    requires i < |ROWS_P148| && -1500 <= e <= 964
    ensures Accurate(ROWS_P148[i]) && -300 <= ROWS_P148[i].k <= 324
    ensures CachedIndex(e) == 56 + i ==> InWindow(ROWS_P148[i], e)
  {
    AccurateP148();
    hide Pow, HalfUnit;
    assert ROWS_P148[0] == CachedPower(0xC835_53C5_C896_5D3D, 428, 148);
    assert ROWS_P148[1] == CachedPower(0x952A_B45C_FA97_A0B3, 455, 156);
    assert ROWS_P148[2] == CachedPower(0xDE46_9FBD_99A0_5FE3, 481, 164);
    assert ROWS_P148[3] == CachedPower(0xA59B_C234_DB39_8C25, 508, 172);
    assert ROWS_P148[4] == CachedPower(0xF6C6_9A72_A398_9F5C, 534, 180);
    assert ROWS_P148[5] == CachedPower(0xB7DC_BF53_54E9_BECE, 561, 188);
    assert ROWS_P148[6] == CachedPower(0x88FC_F317_F222_41E2, 588, 196);
    assert ROWS_P148[7] == CachedPower(0xCC20_CE9B_D35C_78A5, 614, 204);
  }

  lemma AccurateP212()
    ensures HalfUnit(0x9816_5AF3_7B21_53DF, Pow(2, 641), Pow(10, 212))
    ensures HalfUnit(0xE2A0_B5DC_971F_303A, Pow(2, 667), Pow(10, 220))
    ensures HalfUnit(0xA8D9_D153_5CE3_B396, Pow(2, 694), Pow(10, 228))
    ensures HalfUnit(0xFB9B_7CD9_A4A7_443C, Pow(2, 720), Pow(10, 236))
    ensures HalfUnit(0xBB76_4C4C_A7A4_4410, Pow(2, 747), Pow(10, 244))
    ensures HalfUnit(0x8BAB_8EEF_B640_9C1A, Pow(2, 774), Pow(10, 252))
    ensures HalfUnit(0xD01F_EF10_A657_842C, Pow(2, 800), Pow(10, 260))
    ensures HalfUnit(0x9B10_A4E5_E991_3129, Pow(2, 827), Pow(10, 268))
    ensures Pow(10, 268) == TEN_60 * TEN_60 * TEN_60 * TEN_60 * 10000000000000000000000000000
    ensures Pow(2, 827) == TWO_256 * TWO_256 * TWO_256 * 0x800000000000000
  {
    AccurateP148();
    hide Pow;
    var p204, q614 := Pow(10, 204), Pow(2, 614);
    PowerSteps(204, 614);
    var p212, q641 := 100000000 * p204, 0x800_0000 * q614;
    assert HalfUnit(0x9816_5AF3_7B21_53DF, q641, p212);
    PowerSteps(212, 641);
    var p220, q667 := 100000000 * p212, 0x400_0000 * q641;
    assert HalfUnit(0xE2A0_B5DC_971F_303A, q667, p220);
    PowerSteps(220, 667);
    var p228, q694 := 100000000 * p220, 0x800_0000 * q667;
    assert HalfUnit(0xA8D9_D153_5CE3_B396, q694, p228);
    PowerSteps(228, 694);
    var p236, q720 := 100000000 * p228, 0x400_0000 * q694;
    assert HalfUnit(0xFB9B_7CD9_A4A7_443C, q720, p236);
    PowerSteps(236, 720);
    var p244, q747 := 100000000 * p236, 0x800_0000 * q720;
    assert HalfUnit(0xBB76_4C4C_A7A4_4410, q747, p244);
    PowerSteps(244, 747);
    var p252, q774 := 100000000 * p244, 0x800_0000 * q747;
    assert HalfUnit(0x8BAB_8EEF_B640_9C1A, q774, p252);
    PowerSteps(252, 774);
    var p260, q800 := 100000000 * p252, 0x400_0000 * q774;
    assert HalfUnit(0xD01F_EF10_A657_842C, q800, p260);
    PowerSteps(260, 800);
    var p268, q827 := 100000000 * p260, 0x800_0000 * q800;
    assert HalfUnit(0x9B10_A4E5_E991_3129, q827, p268);
  }

  lemma RowsP212(i: nat, e: int)
    requires i < |ROWS_P212| && -1500 <= e <= 964
    ensures Accurate(ROWS_P212[i]) && -300 <= ROWS_P212[i].k <= 324
    ensures CachedIndex(e) == 64 + i ==> InWindow(ROWS_P212[i], e)
  {
    AccurateP212();
    hide Pow, HalfUnit;
    assert ROWS_P212[0] == CachedPower(0x9816_5AF3_7B21_53DF, 641, 212);
    assert ROWS_P212[1] == CachedPower(0xE2A0_B5DC_971F_303A, 667, 220);
    assert ROWS_P212[2] == CachedPower(0xA8D9_D153_5CE3_B396, 694, 228);
    assert ROWS_P212[3] == CachedPower(0xFB9B_7CD9_A4A7_443C, 720, 236);
    assert ROWS_P212[4] == CachedPower(0xBB76_4C4C_A7A4_4410, 747, 244);
    assert ROWS_P212[5] == CachedPower(0x8BAB_8EEF_B640_9C1A, 774, 252);
    assert ROWS_P212[6] == CachedPower(0xD01F_EF10_A657_842C, 800, 260);
    assert ROWS_P212[7] == CachedPower(0x9B10_A4E5_E991_3129, 827, 268);
  }

  lemma AccurateP276()
    ensures HalfUnit(0xE710_9BFB_A19C_0C9D, Pow(2, 853), Pow(10, 276))
    ensures HalfUnit(0xAC28_20D9_623B_F429, Pow(2, 880), Pow(10, 284))
    ensures HalfUnit(0x8044_4B5E_7AA7_CF85, Pow(2, 907), Pow(10, 292))
    ensures HalfUnit(0xBF21_E440_03AC_DD2D, Pow(2, 933), Pow(10, 300))
    ensures HalfUnit(0x8E67_9C2F_5E44_FF8F, Pow(2, 960), Pow(10, 308))
    ensures HalfUnit(0xD433_179D_9C8C_B841, Pow(2, 986), Pow(10, 316))
    ensures HalfUnit(0x9E19_DB92_B4E3_1BA9, Pow(2, 1013), Pow(10, 324))
    ensures Pow(10, 324) == TEN_60 * TEN_60 * TEN_60 * TEN_60 * TEN_60 * 1000000000000000000000000
    ensures Pow(2, 1013)
         == TWO_256 * TWO_256 * TWO_256 * 0x20000000000000000000000000000000000000000000000000000000000000
  {
    AccurateP212();
    hide Pow;
    var p268, q827 := Pow(10, 268), Pow(2, 827);
    PowerSteps(268, 827);
    var p276, q853 := 100000000 * p268, 0x400_0000 * q827;
    assert HalfUnit(0xE710_9BFB_A19C_0C9D, q853, p276);
    PowerSteps(276, 853);
    var p284, q880 := 100000000 * p276, 0x800_0000 * q853;
    assert HalfUnit(0xAC28_20D9_623B_F429, q880, p284);
    PowerSteps(284, 880);
    var p292, q907 := 100000000 * p284, 0x800_0000 * q880;
    assert HalfUnit(0x8044_4B5E_7AA7_CF85, q907, p292);
    PowerSteps(292, 907);
    var p300, q933 := 100000000 * p292, 0x400_0000 * q907;
    assert HalfUnit(0xBF21_E440_03AC_DD2D, q933, p300);
    PowerSteps(300, 933);
    var p308, q960 := 100000000 * p300, 0x800_0000 * q933;
    assert HalfUnit(0x8E67_9C2F_5E44_FF8F, q960, p308);
    PowerSteps(308, 960);
    var p316, q986 := 100000000 * p308, 0x400_0000 * q960;
    assert HalfUnit(0xD433_179D_9C8C_B841, q986, p316);
    PowerSteps(316, 986);
    var p324, q1013 := 100000000 * p316, 0x800_0000 * q986;
    assert HalfUnit(0x9E19_DB92_B4E3_1BA9, q1013, p324);
  }

  lemma RowsP276(i: nat, e: int)
    requires i < |ROWS_P276| && -1500 <= e <= 964
    ensures Accurate(ROWS_P276[i]) && -300 <= ROWS_P276[i].k <= 324
    ensures CachedIndex(e) == 72 + i ==> InWindow(ROWS_P276[i], e)
  {
    AccurateP276();
    hide Pow, HalfUnit;
    assert ROWS_P276[0] == CachedPower(0xE710_9BFB_A19C_0C9D, 853, 276);
    assert ROWS_P276[1] == CachedPower(0xAC28_20D9_623B_F429, 880, 284);
    assert ROWS_P276[2] == CachedPower(0x8044_4B5E_7AA7_CF85, 907, 292);
    assert ROWS_P276[3] == CachedPower(0xBF21_E440_03AC_DD2D, 933, 300);
    assert ROWS_P276[4] == CachedPower(0x8E67_9C2F_5E44_FF8F, 960, 308);
    assert ROWS_P276[5] == CachedPower(0xD433_179D_9C8C_B841, 986, 316);
    assert ROWS_P276[6] == CachedPower(0x9E19_DB92_B4E3_1BA9, 1013, 324);
  }

  lemma StartNegative()
    ensures Pow(10, 4) == 10000
    ensures Pow(2, 77) == 0x20000000000000000000
  {
    PowerConstants();
    PowAdd(2, 64, 13);
  }

  lemma StartPositive()
    ensures Pow(10, 20) == 100000000000000000000
    ensures Pow(2, 3) == 8
  {
    PowerConstants();
    PowAdd(10, 8, 8);
    PowAdd(10, 16, 4);
    assert Pow(2, 2) == 4;
  }

  lemma RowsSMALL(i: nat, e: int)
    requires i < |ROWS_SMALL| && -1500 <= e <= 964
    ensures Accurate(ROWS_SMALL[i]) && -300 <= ROWS_SMALL[i].k <= 324
    ensures CachedIndex(e) == 38 + i ==> InWindow(ROWS_SMALL[i], e)
  {
    PowerConstants();
    PowAdd(2, 16, 8);
    PowAdd(2, 24, 13);
    PowAdd(2, 37, 13);
    PowAdd(10, 8, 4);
    hide Pow;
    assert ROWS_SMALL[0] == CachedPower(0x9C40_0000_0000_0000, -50, 4);
    assert ROWS_SMALL[1] == CachedPower(0xE8D4_A510_0000_0000, -24, 12);
  }
}
