/**
 * The largest powers of the bases that fit a double digit, as a table.
 */
module RadixTable {
  import opened Bits
  import opened Digits

  /** `maxpow64_exp` and `maxpow64_num`. */
  function MaxPow64(base: nat): (nat, DDigit)
    requires 2 <= base <= 36
  {
    if base == 2 then (63, 0x8000_0000_0000_0000)
    else if base == 3 then (40, 0xA8B8_B452_291F_E821)
    else if base == 4 then (31, 0x4000_0000_0000_0000)
    else if base == 5 then (27, 0x6765_C793_FA10_079D)
    else if base == 6 then (24, 0x41C2_1CB8_E100_0000)
    else if base == 7 then (22, 0x3642_7987_5022_6111)
    else if base == 8 then (21, 0x8000_0000_0000_0000)
    else if base == 9 then (20, 0xA8B8_B452_291F_E821)
    else if base == 10 then (19, 0x8AC7_2304_89E8_0000)
    else if base == 11 then (18, 0x4D28_CB56_C33F_A539)
    else if base == 12 then (17, 0x1ECA_170C_0000_0000)
    else if base == 13 then (17, 0x780C_7372_621B_D74D)
    else if base == 14 then (16, 0x1E39_A505_7D81_0000)
    else if base == 15 then (16, 0x5B27_AC99_3DF9_7701)
    else if base == 16 then (15, 0x1000_0000_0000_0000)
    else if base == 17 then (15, 0x27B9_5E99_7E21_D9F1)
    else if base == 18 then (15, 0x5DA0_E1E5_3C5C_8000)
    else if base == 19 then (15, 0xD2AE_3299_C1C4_AEDB)
    else if base == 20 then (14, 0x16BC_C41E_9000_0000)
    else if base == 21 then (14, 0x2D04_B7FD_D9C0_EF49)
    else if base == 22 then (14, 0x5658_597B_CAA2_4000)
    else if base == 23 then (14, 0xA0E2_0737_3760_9371)
    else if base == 24 then (13, 0x0C29_E980_0000_0000)
    else if base == 25 then (13, 0x14AD_F4B7_3203_34B9)
    else if base == 26 then (13, 0x226E_D364_78BF_A000)
    else if base == 27 then (13, 0x383D_9170_B85F_F80B)
    else if base == 28 then (13, 0x5A3C_23E3_9C00_0000)
    else if base == 29 then (13, 0x8E65_1373_8812_2BCD)
    else if base == 30 then (13, 0xDD41_BB36_D259_E000)
    else if base == 31 then (12, 0x0AEE_5720_EE83_0681)
    else if base == 32 then (12, 0x1000_0000_0000_0000)
    else if base == 33 then (12, 0x1725_88AD_4F5F_0981)
    else if base == 34 then (12, 0x211E_44F7_D02C_1000)
    else if base == 35 then (12, 0x2EE5_6725_F06E_5C71)
    else (12, 0x41C2_1CB8_E100_0000)
  }

  /** An entry is a power, and the next one would not fit. */
  ghost predicate Entry(base: nat, e: nat, p: DDigit)
  {
    p == Power(base, e) && 0 < e && 0x1_0000_0000 <= p && p as int * base > 0xFFFF_FFFF_FFFF_FFFF
  }

  /** Every entry of the table. */
  lemma Entries(base: nat)
    requires 2 <= base <= 36
    ensures Entry(base, MaxPow64(base).0, MaxPow64(base).1)
  {
    hide Entry;
    Entries2();
    Entries3();
    Entries4();
    Entries5();
    Entries7();
    Entries9();
    Entries11();
    Entries16();
    Entries21();
    Entries26();
    Entries31();
    Entries36();
  }

  lemma Entries2()
    ensures Entry(2, 63, 0x8000_0000_0000_0000)
  {
    assert Power(2, 10) == 0x0400;
    assert Power(2, 20) == 0x0010_0000;
    assert Power(2, 30) == 0x4000_0000;
    assert Power(2, 40) == 0x0100_0000_0000;
    assert Power(2, 50) == 0x0004_0000_0000_0000;
    assert Power(2, 60) == 0x1000_0000_0000_0000;
  }

  lemma Entries3()
    ensures Entry(3, 40, 0xA8B8_B452_291F_E821)
  {
    assert Power(3, 10) == 0xE6A9;
    assert Power(3, 20) == 0xCFD4_1B91;
    assert Power(3, 30) == 0xBB41_C3CA_78B9;
  }

  lemma Entries4()
    ensures Entry(4, 31, 0x4000_0000_0000_0000)
  {
    assert Power(4, 10) == 0x0010_0000;
    assert Power(4, 20) == 0x0100_0000_0000;
    assert Power(4, 30) == 0x1000_0000_0000_0000;
  }

  lemma Entries5()
    ensures Entry(5, 27, 0x6765_C793_FA10_079D)
    ensures Entry(6, 24, 0x41C2_1CB8_E100_0000)
  {
    assert Power(5, 10) == 0x0095_02F9;
    assert Power(5, 20) == 0x56BC_75E2_D631;
    assert Power(6, 10) == 0x039A_A400;
    assert Power(6, 20) == 0x000C_FD41_B910_0000;
  }

  lemma Entries7()
    ensures Entry(7, 22, 0x3642_7987_5022_6111)
    ensures Entry(8, 21, 0x8000_0000_0000_0000)
  {
    assert Power(7, 10) == 0x10D6_3AF1;
    assert Power(7, 20) == 0x011B_7AA4_B87E_16E1;
    assert Power(8, 10) == 0x4000_0000;
    assert Power(8, 20) == 0x1000_0000_0000_0000;
  }

  lemma Entries9()
    ensures Entry(9, 20, 0xA8B8_B452_291F_E821)
    ensures Entry(10, 19, 0x8AC7_2304_89E8_0000)
  {
    assert Power(9, 10) == 0xCFD4_1B91;
    assert Power(10, 10) == 0x0002_540B_E400;
  }

  lemma Entries11()
    ensures Entry(11, 18, 0x4D28_CB56_C33F_A539)
    ensures Entry(12, 17, 0x1ECA_170C_0000_0000)
    ensures Entry(13, 17, 0x780C_7372_621B_D74D)
    ensures Entry(14, 16, 0x1E39_A505_7D81_0000)
    ensures Entry(15, 16, 0x5B27_AC99_3DF9_7701)
  {
    assert Power(11, 10) == 0x0006_09FD_B0D9;
    assert Power(12, 10) == 0x000E_6A90_0000;
    assert Power(13, 10) == 0x0020_1901_A5C9;
    assert Power(14, 10) == 0x0043_58EB_C400;
    assert Power(15, 10) == 0x0086_430A_AC61;
  }

  lemma Entries16()
    ensures Entry(16, 15, 0x1000_0000_0000_0000)
    ensures Entry(17, 15, 0x27B9_5E99_7E21_D9F1)
    ensures Entry(18, 15, 0x5DA0_E1E5_3C5C_8000)
    ensures Entry(19, 15, 0xD2AE_3299_C1C4_AEDB)
    ensures Entry(20, 14, 0x16BC_C41E_9000_0000)
  {
    assert Power(16, 10) == 0x0100_0000_0000;
    assert Power(17, 10) == 0x01D5_6299_ADA1;
    assert Power(18, 10) == 0x033F_506E_4400;
    assert Power(19, 10) == 0x0593_8006_C189;
    assert Power(20, 10) == 0x0950_2F90_0000;
  }

  lemma Entries21()
    ensures Entry(21, 14, 0x2D04_B7FD_D9C0_EF49)
    ensures Entry(22, 14, 0x5658_597B_CAA2_4000)
    ensures Entry(23, 14, 0xA0E2_0737_3760_9371)
    ensures Entry(24, 13, 0x0C29_E980_0000_0000)
    ensures Entry(25, 13, 0x14AD_F4B7_3203_34B9)
  {
    assert Power(21, 10) == 0x0F2B_9661_6F19;
    assert Power(22, 10) == 0x1827_F6C3_6400;
    assert Power(23, 10) == 0x25AD_5C7C_3451;
    assert Power(24, 10) == 0x39AA_4000_0000;
    assert Power(25, 10) == 0x56BC_75E2_D631;
  }

  lemma Entries26()
    ensures Entry(26, 13, 0x226E_D364_78BF_A000)
    ensures Entry(27, 13, 0x383D_9170_B85F_F80B)
    ensures Entry(28, 13, 0x5A3C_23E3_9C00_0000)
    ensures Entry(29, 13, 0x8E65_1373_8812_2BCD)
    ensures Entry(30, 13, 0xDD41_BB36_D259_E000)
  {
    assert Power(26, 10) == 0x8064_0697_2400;
    assert Power(27, 10) == 0xBB41_C3CA_78B9;
    assert Power(28, 10) == 0x0001_0D63_AF10_0000;
    assert Power(29, 10) == 0x0001_7EA1_8931_FEE9;
    assert Power(30, 10) == 0x0002_190C_2AB1_8400;
  }

  lemma Entries31()
    ensures Entry(31, 12, 0x0AEE_5720_EE83_0681)
    ensures Entry(32, 12, 0x1000_0000_0000_0000)
    ensures Entry(33, 12, 0x1725_88AD_4F5F_0981)
    ensures Entry(34, 12, 0x211E_44F7_D02C_1000)
    ensures Entry(35, 12, 0x2EE5_6725_F06E_5C71)
  {
    assert Power(31, 10) == 0x0002_E972_94E4_B2C1;
    assert Power(32, 10) == 0x0004_0000_0000_0000;
    assert Power(33, 10) == 0x0005_70F6_855C_B541;
    assert Power(34, 10) == 0x0007_558A_66B6_8400;
    assert Power(35, 10) == 0x0009_CCE2_5B1A_3669;
  }

  lemma Entries36()
    ensures Entry(36, 12, 0x41C2_1CB8_E100_0000)
  {
    assert Power(36, 10) == 0x000C_FD41_B910_0000;
  }
}
