/**
 The constant tables of smilelib/decimal/bid128.c and bid_decimal_data.c that the operations read,
 row by row, and what each row is.
 */
module Tables {
  import opened Powers
  import opened Encoding

  // bid_power10_table_128
  function Power10Table128(i: nat): nat
    requires i < 39
  {
    if i < 16 then
      if i < 4 then
        if i == 0 then 1 else if i == 1 then 0xa else if i == 2 then 0x64 else 0x3e8
      else if i < 8 then
        if i == 4 then 0x2710 else if i == 5 then 0x1_86a0 else if i == 6 then 0xf_4240 else 0x98_9680
      else if i < 12 then
        if i == 8 then 0x5f5_e100 else if i == 9 then 0x3b9a_ca00 else if i == 10 then 0x2_540b_e400 else
        0x17_4876_e800
      else
        if i == 12 then 0xe8_d4a5_1000 else if i == 13 then 0x918_4e72_a000 else
        if i == 14 then 0x5af3_107a_4000 else 0x3_8d7e_a4c6_8000
    else if i < 32 then
      if i < 20 then
        if i == 16 then 0x23_86f2_6fc1_0000 else if i == 17 then 0x163_4578_5d8a_0000 else
        if i == 18 then 0xde0_b6b3_a764_0000 else 0x8ac7_2304_89e8_0000
      else if i < 24 then
        if i == 20 then 0x5_6bc7_5e2d_6310_0000 else if i == 21 then 0x36_35c9_adc5_dea0_0000 else
        if i == 22 then 0x21e_19e0_c9ba_b240_0000 else 0x152d_02c7_e14a_f680_0000
      else if i < 28 then
        if i == 24 then 0xd3c2_1bce_cced_a100_0000 else if i == 25 then 0x8_4595_1614_0148_4a00_0000 else
        if i == 26 then 0x52_b7d2_dcc8_0cd2_e400_0000 else 0x33b_2e3c_9fd0_803c_e800_0000
      else
        if i == 28 then 0x204f_ce5e_3e25_0261_1000_0000 else if i == 29 then 0x1_431e_0fae_6d72_17ca_a000_0000 else
        if i == 30 then 0xc_9f2c_9cd0_4674_edea_4000_0000 else 0x7e_37be_2022_c091_4b26_8000_0000
    else
      if i < 36 then
        if i == 32 then 0x4ee_2d6d_415b_85ac_ef81_0000_0000 else
        if i == 33 then 0x314d_c644_8d93_38c1_5b0a_0000_0000 else
        if i == 34 then 0x1_ed09_bead_87c0_378d_8e64_0000_0000 else 0x13_4261_72c7_4d82_2b87_8fe8_0000_0000
      else
        if i == 36 then 0xc0_97ce_7bc9_0715_b34b_9f10_0000_0000 else
        if i == 37 then 0x785_ee10_d5da_46d9_00f4_36a0_0000_0000 else 0x4b3b_4ca8_5a86_c47a_098a_2240_0000_0000
  }

  // bid_ten2k64
  function Ten2k64(i: nat): nat
    requires i < 20
  {
    if i < 16 then
      if i < 4 then
        if i == 0 then 1 else if i == 1 then 0xa else if i == 2 then 0x64 else 0x3e8
      else if i < 8 then
        if i == 4 then 0x2710 else if i == 5 then 0x1_86a0 else if i == 6 then 0xf_4240 else 0x98_9680
      else if i < 12 then
        if i == 8 then 0x5f5_e100 else if i == 9 then 0x3b9a_ca00 else if i == 10 then 0x2_540b_e400 else
        0x17_4876_e800
      else
        if i == 12 then 0xe8_d4a5_1000 else if i == 13 then 0x918_4e72_a000 else
        if i == 14 then 0x5af3_107a_4000 else 0x3_8d7e_a4c6_8000
    else
      if i == 16 then 0x23_86f2_6fc1_0000 else if i == 17 then 0x163_4578_5d8a_0000 else
      if i == 18 then 0xde0_b6b3_a764_0000 else 0x8ac7_2304_89e8_0000
  }

  // bid_ten2k128; row i holds 10^(i + 20)
  function Ten2k128(i: nat): nat
    requires i < 19
  {
    if i < 16 then
      if i < 4 then
        if i == 0 then 0x5_6bc7_5e2d_6310_0000 else if i == 1 then 0x36_35c9_adc5_dea0_0000 else
        if i == 2 then 0x21e_19e0_c9ba_b240_0000 else 0x152d_02c7_e14a_f680_0000
      else if i < 8 then
        if i == 4 then 0xd3c2_1bce_cced_a100_0000 else if i == 5 then 0x8_4595_1614_0148_4a00_0000 else
        if i == 6 then 0x52_b7d2_dcc8_0cd2_e400_0000 else 0x33b_2e3c_9fd0_803c_e800_0000
      else if i < 12 then
        if i == 8 then 0x204f_ce5e_3e25_0261_1000_0000 else if i == 9 then 0x1_431e_0fae_6d72_17ca_a000_0000 else
        if i == 10 then 0xc_9f2c_9cd0_4674_edea_4000_0000 else 0x7e_37be_2022_c091_4b26_8000_0000
      else
        if i == 12 then 0x4ee_2d6d_415b_85ac_ef81_0000_0000 else
        if i == 13 then 0x314d_c644_8d93_38c1_5b0a_0000_0000 else
        if i == 14 then 0x1_ed09_bead_87c0_378d_8e64_0000_0000 else 0x13_4261_72c7_4d82_2b87_8fe8_0000_0000
    else
      if i == 16 then 0xc0_97ce_7bc9_0715_b34b_9f10_0000_0000 else
      if i == 17 then 0x785_ee10_d5da_46d9_00f4_36a0_0000_0000 else 0x4b3b_4ca8_5a86_c47a_098a_2240_0000_0000
  }

  // bid_midpoint64; row i holds half of 10^(i + 1)
  function Midpoint64(i: nat): nat
    requires i < 19
  {
    if i < 16 then
      if i < 4 then
        if i == 0 then 5 else if i == 1 then 0x32 else if i == 2 then 0x1f4 else 0x1388
      else if i < 8 then
        if i == 4 then 0xc350 else if i == 5 then 0x7_a120 else if i == 6 then 0x4c_4b40 else 0x2fa_f080
      else if i < 12 then
        if i == 8 then 0x1dcd_6500 else if i == 9 then 0x1_2a05_f200 else if i == 10 then 0xb_a43b_7400 else
        0x74_6a52_8800
      else
        if i == 12 then 0x48c_2739_5000 else if i == 13 then 0x2d79_883d_2000 else
        if i == 14 then 0x1_c6bf_5263_4000 else 0x11_c379_37e0_8000
    else
      if i == 16 then 0xb1_a2bc_2ec5_0000 else if i == 17 then 0x6f0_5b59_d3b2_0000 else 0x4563_9182_44f4_0000
  }

  // bid_midpoint128; row i holds half of 10^(i + 20)
  function Midpoint128(i: nat): nat
    requires i < 19
  {
    if i < 16 then
      if i < 4 then
        if i == 0 then 0x2_b5e3_af16_b188_0000 else if i == 1 then 0x1b_1ae4_d6e2_ef50_0000 else
        if i == 2 then 0x10f_0cf0_64dd_5920_0000 else 0xa96_8163_f0a5_7b40_0000
      else if i < 8 then
        if i == 4 then 0x69e1_0de7_6676_d080_0000 else if i == 5 then 0x4_22ca_8b0a_00a4_2500_0000 else
        if i == 6 then 0x29_5be9_6e64_0669_7200_0000 else 0x19d_971e_4fe8_401e_7400_0000
      else if i < 12 then
        if i == 8 then 0x1027_e72f_1f12_8130_8800_0000 else if i == 9 then 0xa18f_07d7_36b9_0be5_5000_0000 else
        if i == 10 then 0x6_4f96_4e68_233a_76f5_2000_0000 else 0x3f_1bdf_1011_6048_a593_4000_0000
      else
        if i == 12 then 0x277_16b6_a0ad_c2d6_77c0_8000_0000 else
        if i == 13 then 0x18a6_e322_46c9_9c60_ad85_0000_0000 else
        if i == 14 then 0xf684_df56_c3e0_1bc6_c732_0000_0000 else 0x9_a130_b963_a6c1_15c3_c7f4_0000_0000
    else
      if i == 16 then 0x60_4be7_3de4_838a_d9a5_cf88_0000_0000 else
      if i == 17 then 0x3c2_f708_6aed_236c_807a_1b50_0000_0000 else 0x259d_a654_2d43_623d_04c5_1120_0000_0000
  }

  lemma Power10TableValue(i: nat)
    requires i < 39
    ensures Power10Table128(i) == Pow10(i)
  {
  }

  lemma Ten2k64Value(i: nat)
    requires i < 20
    ensures Ten2k64(i) == Pow10(i)
  {
  }

  lemma Ten2k128Value(i: nat)
    requires i < 19
    ensures Ten2k128(i) == Pow10(i + 20)
  {
    Power10TableValue(i + 20);
  }

  lemma Midpoint64Value(i: nat)
    requires i < 19
    ensures Midpoint64(i) == 5 * Pow10(i)
  {
  }

  lemma Midpoint128Value(i: nat)
    requires i < 19
    ensures Midpoint128(i) == 5 * Pow10(i + 19)
  {
    Power10TableValue(i + 19);
  }

  // bid_ten2mk128
  function Ten2mk128(i: nat): (r: nat)
    requires i < 34
    ensures r < W128 / 2
  {
    if i < 16 then
      if i < 4 then
        if i == 0 then 0x1999_9999_9999_9999_9999_9999_9999_999a else
        if i == 1 then 0x28f_5c28_f5c2_8f5c_28f5_c28f_5c28_f5c3 else
        if i == 2 then 0x41_8937_4bc6_a7ef_9db2_2d0e_5604_1894 else 0x34_6dc5_d638_8659_4af4_f0d8_44d0_13aa
      else if i < 8 then
        if i == 4 then 0x29_f16b_11c6_d1e1_08c3_f3e0_370c_dc88 else
        if i == 5 then 0x21_8def_416b_db1a_6d69_8fe6_9270_b06d else
        if i == 6 then 0x35_afe5_3579_5e90_af0f_4ca4_1d81_1a47 else 0x2a_f31d_c461_1873_bf3f_7083_4acd_aea0
      else if i < 12 then
        if i == 8 then 0x22_5c17_d04d_ad29_65cc_5a02_a23e_254d else
        if i == 9 then 0x36_f9bf_b3af_7b75_6fad_5cd1_0396_a214 else
        if i == 10 then 0x2b_faff_c2f2_c92a_bfbd_e3da_6945_4e76 else 0x23_2f33_025b_d422_32fe_4fe1_edd1_0b92
      else
        if i == 12 then 0x38_4b84_d092_ed03_84ca_1969_7c81_ac1c else
        if i == 13 then 0x2d_0937_0d42_5736_03d4_e121_3067_bce4 else
        if i == 14 then 0x24_075f_3dce_ac2b_3643_e74d_c052_fd83 else 0x39_a565_2fb1_1378_56d3_0baf_9a1e_626b
    else if i < 32 then
      if i < 20 then
        if i == 16 then 0x2e_1dea_8c8d_a92d_1242_6fbf_ae7e_b522 else
        if i == 17 then 0x24_e4bb_a3a4_8757_41ce_bfcc_8b98_90e8 else
        if i == 18 then 0x3b_0792_9f6d_a558_694a_cc7a_78f4_1b0d else 0x2f_3942_1924_8446_baa2_3d2e_c729_af3e
      else if i < 24 then
        if i == 20 then 0x25_c768_141d_369e_fbb4_fdbf_05ba_f298 else
        if i == 21 then 0x3c_7240_202e_bdcb_2c54_c931_a2c4_b759 else
        if i == 22 then 0x30_5b66_8025_64a2_89dd_6dc1_4f03_c5e1 else 0x26_af85_3351_1d4e_d4b1_249a_a59c_9e4e
      else if i < 28 then
        if i == 24 then 0x3d_e5a1_ebb4_fbb1_544e_a0f7_6f60_fd49 else
        if i == 25 then 0x31_8481_895d_9627_76a5_4d92_bf80_caa1 else
        if i == 26 then 0x27_9d34_6de4_781f_921d_d7a8_9933_d54e else 0x3f_61ed_7ca0_c032_8362_f2a7_5b86_2215
      else
        if i == 28 then 0x32_b4bd_fd4d_668e_cf82_5bb9_1604_e811 else
        if i == 29 then 0x28_9097_fdd7_853f_0c68_4960_de6a_5341 else
        if i == 30 then 0x20_73ac_cb12_d0ff_3d20_3ab3_e521_dc34 else 0x33_ec47_ab51_4e65_2e99_f786_3b69_6053
    else
      if i == 32 then 0x29_89d2_ef74_3eb7_587b_2c6b_62ba_b376 else 0x21_3b0f_25f6_9892_ad2f_56bc_4efb_c2c5
  }

  // bid_ten2mk128trunc
  function Ten2mk128Trunc(i: nat): (r: nat)
    requires i < 34
    ensures r < W128 / 2
  {
    if i < 16 then
      if i < 4 then
        if i == 0 then 0x1999_9999_9999_9999_9999_9999_9999_9999 else
        if i == 1 then 0x28f_5c28_f5c2_8f5c_28f5_c28f_5c28_f5c2 else
        if i == 2 then 0x41_8937_4bc6_a7ef_9db2_2d0e_5604_1893 else 0x34_6dc5_d638_8659_4af4_f0d8_44d0_13a9
      else if i < 8 then
        if i == 4 then 0x29_f16b_11c6_d1e1_08c3_f3e0_370c_dc87 else
        if i == 5 then 0x21_8def_416b_db1a_6d69_8fe6_9270_b06c else
        if i == 6 then 0x35_afe5_3579_5e90_af0f_4ca4_1d81_1a46 else 0x2a_f31d_c461_1873_bf3f_7083_4acd_ae9f
      else if i < 12 then
        if i == 8 then 0x22_5c17_d04d_ad29_65cc_5a02_a23e_254c else
        if i == 9 then 0x36_f9bf_b3af_7b75_6fad_5cd1_0396_a213 else
        if i == 10 then 0x2b_faff_c2f2_c92a_bfbd_e3da_6945_4e75 else 0x23_2f33_025b_d422_32fe_4fe1_edd1_0b91
      else
        if i == 12 then 0x38_4b84_d092_ed03_84ca_1969_7c81_ac1b else
        if i == 13 then 0x2d_0937_0d42_5736_03d4_e121_3067_bce3 else
        if i == 14 then 0x24_075f_3dce_ac2b_3643_e74d_c052_fd82 else 0x39_a565_2fb1_1378_56d3_0baf_9a1e_626a
    else if i < 32 then
      if i < 20 then
        if i == 16 then 0x2e_1dea_8c8d_a92d_1242_6fbf_ae7e_b521 else
        if i == 17 then 0x24_e4bb_a3a4_8757_41ce_bfcc_8b98_90e7 else
        if i == 18 then 0x3b_0792_9f6d_a558_694a_cc7a_78f4_1b0c else 0x2f_3942_1924_8446_baa2_3d2e_c729_af3d
      else if i < 24 then
        if i == 20 then 0x25_c768_141d_369e_fbb4_fdbf_05ba_f297 else
        if i == 21 then 0x3c_7240_202e_bdcb_2c54_c931_a2c4_b758 else
        if i == 22 then 0x30_5b66_8025_64a2_89dd_6dc1_4f03_c5e0 else 0x26_af85_3351_1d4e_d4b1_249a_a59c_9e4d
      else if i < 28 then
        if i == 24 then 0x3d_e5a1_ebb4_fbb1_544e_a0f7_6f60_fd48 else
        if i == 25 then 0x31_8481_895d_9627_76a5_4d92_bf80_caa0 else
        if i == 26 then 0x27_9d34_6de4_781f_921d_d7a8_9933_d54d else 0x3f_61ed_7ca0_c032_8362_f2a7_5b86_2214
      else
        if i == 28 then 0x32_b4bd_fd4d_668e_cf82_5bb9_1604_e810 else
        if i == 29 then 0x28_9097_fdd7_853f_0c68_4960_de6a_5340 else
        if i == 30 then 0x20_73ac_cb12_d0ff_3d20_3ab3_e521_dc33 else 0x33_ec47_ab51_4e65_2e99_f786_3b69_6052
    else
      if i == 32 then 0x29_89d2_ef74_3eb7_587b_2c6b_62ba_b375 else 0x21_3b0f_25f6_9892_ad2f_56bc_4efb_c2c4
  }

  // bid_shiftright128
  function ShiftRight128(i: nat): nat
    requires i < 34
  {
    if i < 16 then
      if i < 4 then
        if i == 0 then 0 else if i == 1 then 0 else if i == 2 then 0 else 3
      else if i < 8 then
        if i == 4 then 6 else if i == 5 then 9 else if i == 6 then 13 else 16
      else if i < 12 then
        if i == 8 then 19 else if i == 9 then 23 else if i == 10 then 26 else 29
      else
        if i == 12 then 33 else if i == 13 then 36 else if i == 14 then 39 else 43
    else if i < 32 then
      if i < 20 then
        if i == 16 then 46 else if i == 17 then 49 else if i == 18 then 53 else 56
      else if i < 24 then
        if i == 20 then 59 else if i == 21 then 63 else if i == 22 then 66 else 69
      else if i < 28 then
        if i == 24 then 73 else if i == 25 then 76 else if i == 26 then 79 else 83
      else
        if i == 28 then 86 else if i == 29 then 89 else if i == 30 then 92 else 96
    else
      if i == 32 then 99 else 102
  }

  // bid_maskhigh128
  function MaskHigh128(i: nat): nat
    requires i < 34
  {
    if i < 16 then
      if i < 4 then
        if i == 0 then 0 else if i == 1 then 0 else if i == 2 then 0 else 7
      else if i < 8 then
        if i == 4 then 0x3f else if i == 5 then 0x1ff else if i == 6 then 0x1fff else 0xffff
      else if i < 12 then
        if i == 8 then 0x7_ffff else if i == 9 then 0x7f_ffff else if i == 10 then 0x3ff_ffff else 0x1fff_ffff
      else
        if i == 12 then 0x1_ffff_ffff else if i == 13 then 0xf_ffff_ffff else if i == 14 then 0x7f_ffff_ffff else
        0x7ff_ffff_ffff
    else if i < 32 then
      if i < 20 then
        if i == 16 then 0x3fff_ffff_ffff else if i == 17 then 0x1_ffff_ffff_ffff else
        if i == 18 then 0x1f_ffff_ffff_ffff else 0xff_ffff_ffff_ffff
      else if i < 24 then
        if i == 20 then 0x7ff_ffff_ffff_ffff else if i == 21 then 0x7fff_ffff_ffff_ffff else if i == 22 then 3 else
        0x1f
      else if i < 28 then
        if i == 24 then 0x1ff else if i == 25 then 0xfff else if i == 26 then 0x7fff else 0x7_ffff
      else
        if i == 28 then 0x3f_ffff else if i == 29 then 0x1ff_ffff else if i == 30 then 0xfff_ffff else 0xffff_ffff
    else
      if i == 32 then 0x7_ffff_ffff else 0x3f_ffff_ffff
  }

  // bid_onehalf128
  function OneHalf128(i: nat): nat
    requires i < 34
  {
    if i < 16 then
      if i < 4 then
        if i == 0 then 0 else if i == 1 then 0 else if i == 2 then 0 else 4
      else if i < 8 then
        if i == 4 then 0x20 else if i == 5 then 0x100 else if i == 6 then 0x1000 else 0x8000
      else if i < 12 then
        if i == 8 then 0x4_0000 else if i == 9 then 0x40_0000 else if i == 10 then 0x200_0000 else 0x1000_0000
      else
        if i == 12 then 0x1_0000_0000 else if i == 13 then 0x8_0000_0000 else if i == 14 then 0x40_0000_0000 else
        0x400_0000_0000
    else if i < 32 then
      if i < 20 then
        if i == 16 then 0x2000_0000_0000 else if i == 17 then 0x1_0000_0000_0000 else
        if i == 18 then 0x10_0000_0000_0000 else 0x80_0000_0000_0000
      else if i < 24 then
        if i == 20 then 0x400_0000_0000_0000 else if i == 21 then 0x4000_0000_0000_0000 else if i == 22 then 2 else
        0x10
      else if i < 28 then
        if i == 24 then 0x100 else if i == 25 then 0x800 else if i == 26 then 0x4000 else 0x4_0000
      else
        if i == 28 then 0x20_0000 else if i == 29 then 0x100_0000 else if i == 30 then 0x800_0000 else 0x8000_0000
    else
      if i == 32 then 0x4_0000_0000 else 0x20_0000_0000
  }

  // 2^0 to 2^113, to evaluate the scales below
  function PowersOfTwo(i: nat): nat
    requires i < 114
  {
    if i < 64 then
      if i < 16 then
        if i < 4 then
          if i == 0 then 1 else if i == 1 then 2 else if i == 2 then 4 else 8
        else if i < 8 then
          if i == 4 then 0x10 else if i == 5 then 0x20 else if i == 6 then 0x40 else 0x80
        else if i < 12 then
          if i == 8 then 0x100 else if i == 9 then 0x200 else if i == 10 then 0x400 else 0x800
        else
          if i == 12 then 0x1000 else if i == 13 then 0x2000 else if i == 14 then 0x4000 else 0x8000
      else if i < 32 then
        if i < 20 then
          if i == 16 then 0x1_0000 else if i == 17 then 0x2_0000 else if i == 18 then 0x4_0000 else 0x8_0000
        else if i < 24 then
          if i == 20 then 0x10_0000 else if i == 21 then 0x20_0000 else if i == 22 then 0x40_0000 else 0x80_0000
        else if i < 28 then
          if i == 24 then 0x100_0000 else if i == 25 then 0x200_0000 else if i == 26 then 0x400_0000 else 0x800_0000
        else
          if i == 28 then 0x1000_0000 else if i == 29 then 0x2000_0000 else if i == 30 then 0x4000_0000 else
          0x8000_0000
      else if i < 48 then
        if i < 36 then
          if i == 32 then 0x1_0000_0000 else if i == 33 then 0x2_0000_0000 else if i == 34 then 0x4_0000_0000 else
          0x8_0000_0000
        else if i < 40 then
          if i == 36 then 0x10_0000_0000 else if i == 37 then 0x20_0000_0000 else
          if i == 38 then 0x40_0000_0000 else 0x80_0000_0000
        else if i < 44 then
          if i == 40 then 0x100_0000_0000 else if i == 41 then 0x200_0000_0000 else
          if i == 42 then 0x400_0000_0000 else 0x800_0000_0000
        else
          if i == 44 then 0x1000_0000_0000 else if i == 45 then 0x2000_0000_0000 else
          if i == 46 then 0x4000_0000_0000 else 0x8000_0000_0000
      else
        if i < 52 then
          if i == 48 then 0x1_0000_0000_0000 else if i == 49 then 0x2_0000_0000_0000 else
          if i == 50 then 0x4_0000_0000_0000 else 0x8_0000_0000_0000
        else if i < 56 then
          if i == 52 then 0x10_0000_0000_0000 else if i == 53 then 0x20_0000_0000_0000 else
          if i == 54 then 0x40_0000_0000_0000 else 0x80_0000_0000_0000
        else if i < 60 then
          if i == 56 then 0x100_0000_0000_0000 else if i == 57 then 0x200_0000_0000_0000 else
          if i == 58 then 0x400_0000_0000_0000 else 0x800_0000_0000_0000
        else
          if i == 60 then 0x1000_0000_0000_0000 else if i == 61 then 0x2000_0000_0000_0000 else
          if i == 62 then 0x4000_0000_0000_0000 else 0x8000_0000_0000_0000
    else
      if i < 80 then
        if i < 68 then
          if i == 64 then 0x1_0000_0000_0000_0000 else if i == 65 then 0x2_0000_0000_0000_0000 else
          if i == 66 then 0x4_0000_0000_0000_0000 else 0x8_0000_0000_0000_0000
        else if i < 72 then
          if i == 68 then 0x10_0000_0000_0000_0000 else if i == 69 then 0x20_0000_0000_0000_0000 else
          if i == 70 then 0x40_0000_0000_0000_0000 else 0x80_0000_0000_0000_0000
        else if i < 76 then
          if i == 72 then 0x100_0000_0000_0000_0000 else if i == 73 then 0x200_0000_0000_0000_0000 else
          if i == 74 then 0x400_0000_0000_0000_0000 else 0x800_0000_0000_0000_0000
        else
          if i == 76 then 0x1000_0000_0000_0000_0000 else if i == 77 then 0x2000_0000_0000_0000_0000 else
          if i == 78 then 0x4000_0000_0000_0000_0000 else 0x8000_0000_0000_0000_0000
      else if i < 96 then
        if i < 84 then
          if i == 80 then 0x1_0000_0000_0000_0000_0000 else if i == 81 then 0x2_0000_0000_0000_0000_0000 else
          if i == 82 then 0x4_0000_0000_0000_0000_0000 else 0x8_0000_0000_0000_0000_0000
        else if i < 88 then
          if i == 84 then 0x10_0000_0000_0000_0000_0000 else if i == 85 then 0x20_0000_0000_0000_0000_0000 else
          if i == 86 then 0x40_0000_0000_0000_0000_0000 else 0x80_0000_0000_0000_0000_0000
        else if i < 92 then
          if i == 88 then 0x100_0000_0000_0000_0000_0000 else if i == 89 then 0x200_0000_0000_0000_0000_0000 else
          if i == 90 then 0x400_0000_0000_0000_0000_0000 else 0x800_0000_0000_0000_0000_0000
        else
          if i == 92 then 0x1000_0000_0000_0000_0000_0000 else if i == 93 then 0x2000_0000_0000_0000_0000_0000 else
          if i == 94 then 0x4000_0000_0000_0000_0000_0000 else 0x8000_0000_0000_0000_0000_0000
      else if i < 112 then
        if i < 100 then
          if i == 96 then 0x1_0000_0000_0000_0000_0000_0000 else
          if i == 97 then 0x2_0000_0000_0000_0000_0000_0000 else
          if i == 98 then 0x4_0000_0000_0000_0000_0000_0000 else 0x8_0000_0000_0000_0000_0000_0000
        else if i < 104 then
          if i == 100 then 0x10_0000_0000_0000_0000_0000_0000 else
          if i == 101 then 0x20_0000_0000_0000_0000_0000_0000 else
          if i == 102 then 0x40_0000_0000_0000_0000_0000_0000 else 0x80_0000_0000_0000_0000_0000_0000
        else if i < 108 then
          if i == 104 then 0x100_0000_0000_0000_0000_0000_0000 else
          if i == 105 then 0x200_0000_0000_0000_0000_0000_0000 else
          if i == 106 then 0x400_0000_0000_0000_0000_0000_0000 else 0x800_0000_0000_0000_0000_0000_0000
        else
          if i == 108 then 0x1000_0000_0000_0000_0000_0000_0000 else
          if i == 109 then 0x2000_0000_0000_0000_0000_0000_0000 else
          if i == 110 then 0x4000_0000_0000_0000_0000_0000_0000 else 0x8000_0000_0000_0000_0000_0000_0000
      else
        if i == 112 then 0x1_0000_0000_0000_0000_0000_0000_0000 else 0x2_0000_0000_0000_0000_0000_0000_0000
  }

  lemma PowersOfTwoValue(i: nat)
    requires i < 114
    ensures PowersOfTwo(i) == Pow2(i)
  {
  }

  predicate ReciprocalRowHolds(i: nat)
    requires i < 34
  {
    var p, two := Power10Table128(i + 1), W128 * PowersOfTwo(ShiftRight128(i));
    && two < Ten2mk128(i) * p < two + p
    && Ten2mk128Trunc(i) == Ten2mk128(i) - 1
    && 3 * TEN34 * p < two
  }

  lemma ReciprocalRows(i: nat)
    requires i < 34
    ensures ReciprocalRowHolds(i)
  {
  }

  /**
   Row i of the reciprocal tables: with k == i + 1 and 2^E the scale, the entry is 2^E / 10^k
   rounded up, the truncated entry is one less, and the scale leaves room for a 34-digit operand.
   */
  lemma ReciprocalRow(i: nat)
    requires i < 34
    ensures var p, two := Pow10(i + 1), W128 * Pow2(ShiftRight128(i));
            && two < Ten2mk128(i) * p < two + p
            && Ten2mk128Trunc(i) == Ten2mk128(i) - 1
            && 3 * TEN34 * p < two
  {
    ReciprocalRows(i);
    Power10TableValue(i + 1);
    PowersOfTwoValue(ShiftRight128(i));
  }

  predicate FractionRowHolds(i: nat)
    requires i < 34
  {
    var s := ShiftRight128(i);
    if i <= 2 then s == 0
    else if i <= 21 then 3 <= s <= 63 && MaskHigh128(i) == PowersOfTwo(s) - 1 && OneHalf128(i) == PowersOfTwo(s - 1)
    else 66 <= s <= 102 && MaskHigh128(i) == PowersOfTwo(s - 64) - 1 && OneHalf128(i) == PowersOfTwo(s - 65)
  }

  lemma FractionRows(i: nat)
    requires i < 34
    ensures FractionRowHolds(i)
  {
  }

  /** The masks and halves select the fraction bits that lie above the low 128. */
  lemma FractionRow(i: nat)
    requires i < 34
    ensures var s := ShiftRight128(i);
            if i <= 2 then s == 0
            else if i <= 21 then 3 <= s <= 63 && MaskHigh128(i) == Pow2(s) - 1 && OneHalf128(i) == Pow2(s - 1)
            else 66 <= s <= 102 && MaskHigh128(i) == Pow2(s - 64) - 1 && OneHalf128(i) == Pow2(s - 65)
  {
    FractionRows(i);
    var s := ShiftRight128(i);
    if 3 <= i <= 21 {
      PowersOfTwoValue(s);
      PowersOfTwoValue(s - 1);
    } else if i >= 22 {
      PowersOfTwoValue(s - 64);
      PowersOfTwoValue(s - 65);
    }
  }

  datatype DigitRow = DigitRow(digits: nat, threshold: nat, digits1: nat)

  // bid_nr_digits, the two threshold words joined
  function NrDigits(i: nat): DigitRow
    requires i < 113
  {
    if i < 64 then
      if i < 16 then
        if i < 4 then
          if i == 0 then DigitRow(1, 0xa, 1) else if i == 1 then DigitRow(1, 0xa, 1) else
          if i == 2 then DigitRow(1, 0xa, 1) else DigitRow(0, 0xa, 1)
        else if i < 8 then
          if i == 4 then DigitRow(2, 0x64, 2) else if i == 5 then DigitRow(2, 0x64, 2) else
          if i == 6 then DigitRow(0, 0x64, 2) else DigitRow(3, 0x3e8, 3)
        else if i < 12 then
          if i == 8 then DigitRow(3, 0x3e8, 3) else if i == 9 then DigitRow(0, 0x3e8, 3) else
          if i == 10 then DigitRow(4, 0x2710, 4) else DigitRow(4, 0x2710, 4)
        else
          if i == 12 then DigitRow(4, 0x2710, 4) else if i == 13 then DigitRow(0, 0x2710, 4) else
          if i == 14 then DigitRow(5, 0x1_86a0, 5) else DigitRow(5, 0x1_86a0, 5)
      else if i < 32 then
        if i < 20 then
          if i == 16 then DigitRow(0, 0x1_86a0, 5) else if i == 17 then DigitRow(6, 0xf_4240, 6) else
          if i == 18 then DigitRow(6, 0xf_4240, 6) else DigitRow(0, 0xf_4240, 6)
        else if i < 24 then
          if i == 20 then DigitRow(7, 0x98_9680, 7) else if i == 21 then DigitRow(7, 0x98_9680, 7) else
          if i == 22 then DigitRow(7, 0x98_9680, 7) else DigitRow(0, 0x98_9680, 7)
        else if i < 28 then
          if i == 24 then DigitRow(8, 0x5f5_e100, 8) else if i == 25 then DigitRow(8, 0x5f5_e100, 8) else
          if i == 26 then DigitRow(0, 0x5f5_e100, 8) else DigitRow(9, 0x3b9a_ca00, 9)
        else
          if i == 28 then DigitRow(9, 0x3b9a_ca00, 9) else if i == 29 then DigitRow(0, 0x3b9a_ca00, 9) else
          if i == 30 then DigitRow(10, 0x2_540b_e400, 10) else DigitRow(10, 0x2_540b_e400, 10)
      else if i < 48 then
        if i < 36 then
          if i == 32 then DigitRow(10, 0x2_540b_e400, 10) else if i == 33 then DigitRow(0, 0x2_540b_e400, 10) else
          if i == 34 then DigitRow(11, 0x17_4876_e800, 11) else DigitRow(11, 0x17_4876_e800, 11)
        else if i < 40 then
          if i == 36 then DigitRow(0, 0x17_4876_e800, 11) else
          if i == 37 then DigitRow(12, 0xe8_d4a5_1000, 12) else
          if i == 38 then DigitRow(12, 0xe8_d4a5_1000, 12) else DigitRow(0, 0xe8_d4a5_1000, 12)
        else if i < 44 then
          if i == 40 then DigitRow(13, 0x918_4e72_a000, 13) else
          if i == 41 then DigitRow(13, 0x918_4e72_a000, 13) else
          if i == 42 then DigitRow(13, 0x918_4e72_a000, 13) else DigitRow(0, 0x918_4e72_a000, 13)
        else
          if i == 44 then DigitRow(14, 0x5af3_107a_4000, 14) else
          if i == 45 then DigitRow(14, 0x5af3_107a_4000, 14) else
          if i == 46 then DigitRow(0, 0x5af3_107a_4000, 14) else DigitRow(15, 0x3_8d7e_a4c6_8000, 15)
      else
        if i < 52 then
          if i == 48 then DigitRow(15, 0x3_8d7e_a4c6_8000, 15) else
          if i == 49 then DigitRow(0, 0x3_8d7e_a4c6_8000, 15) else
          if i == 50 then DigitRow(16, 0x23_86f2_6fc1_0000, 16) else DigitRow(16, 0x23_86f2_6fc1_0000, 16)
        else if i < 56 then
          if i == 52 then DigitRow(16, 0x23_86f2_6fc1_0000, 16) else
          if i == 53 then DigitRow(0, 0x23_86f2_6fc1_0000, 16) else
          if i == 54 then DigitRow(17, 0x163_4578_5d8a_0000, 17) else DigitRow(17, 0x163_4578_5d8a_0000, 17)
        else if i < 60 then
          if i == 56 then DigitRow(0, 0x163_4578_5d8a_0000, 17) else
          if i == 57 then DigitRow(18, 0xde0_b6b3_a764_0000, 18) else
          if i == 58 then DigitRow(18, 0xde0_b6b3_a764_0000, 18) else DigitRow(0, 0xde0_b6b3_a764_0000, 18)
        else
          if i == 60 then DigitRow(19, 0x8ac7_2304_89e8_0000, 19) else
          if i == 61 then DigitRow(19, 0x8ac7_2304_89e8_0000, 19) else
          if i == 62 then DigitRow(19, 0x8ac7_2304_89e8_0000, 19) else DigitRow(0, 0x8ac7_2304_89e8_0000, 19)
    else
      if i < 80 then
        if i < 68 then
          if i == 64 then DigitRow(20, 0x5_6bc7_5e2d_6310_0000, 20) else
          if i == 65 then DigitRow(20, 0x5_6bc7_5e2d_6310_0000, 20) else
          if i == 66 then DigitRow(0, 0x5_6bc7_5e2d_6310_0000, 20) else DigitRow(21, 0x36_35c9_adc5_dea0_0000, 21)
        else if i < 72 then
          if i == 68 then DigitRow(21, 0x36_35c9_adc5_dea0_0000, 21) else
          if i == 69 then DigitRow(0, 0x36_35c9_adc5_dea0_0000, 21) else
          if i == 70 then DigitRow(22, 0x21e_19e0_c9ba_b240_0000, 22) else
          DigitRow(22, 0x21e_19e0_c9ba_b240_0000, 22)
        else if i < 76 then
          if i == 72 then DigitRow(22, 0x21e_19e0_c9ba_b240_0000, 22) else
          if i == 73 then DigitRow(0, 0x21e_19e0_c9ba_b240_0000, 22) else
          if i == 74 then DigitRow(23, 0x152d_02c7_e14a_f680_0000, 23) else
          DigitRow(23, 0x152d_02c7_e14a_f680_0000, 23)
        else
          if i == 76 then DigitRow(0, 0x152d_02c7_e14a_f680_0000, 23) else
          if i == 77 then DigitRow(24, 0xd3c2_1bce_cced_a100_0000, 24) else
          if i == 78 then DigitRow(24, 0xd3c2_1bce_cced_a100_0000, 24) else
          DigitRow(0, 0xd3c2_1bce_cced_a100_0000, 24)
      else if i < 96 then
        if i < 84 then
          if i == 80 then DigitRow(25, 0x8_4595_1614_0148_4a00_0000, 25) else
          if i == 81 then DigitRow(25, 0x8_4595_1614_0148_4a00_0000, 25) else
          if i == 82 then DigitRow(25, 0x8_4595_1614_0148_4a00_0000, 25) else
          DigitRow(0, 0x8_4595_1614_0148_4a00_0000, 25)
        else if i < 88 then
          if i == 84 then DigitRow(26, 0x52_b7d2_dcc8_0cd2_e400_0000, 26) else
          if i == 85 then DigitRow(26, 0x52_b7d2_dcc8_0cd2_e400_0000, 26) else
          if i == 86 then DigitRow(0, 0x52_b7d2_dcc8_0cd2_e400_0000, 26) else
          DigitRow(27, 0x33b_2e3c_9fd0_803c_e800_0000, 27)
        else if i < 92 then
          if i == 88 then DigitRow(27, 0x33b_2e3c_9fd0_803c_e800_0000, 27) else
          if i == 89 then DigitRow(0, 0x33b_2e3c_9fd0_803c_e800_0000, 27) else
          if i == 90 then DigitRow(28, 0x204f_ce5e_3e25_0261_1000_0000, 28) else
          DigitRow(28, 0x204f_ce5e_3e25_0261_1000_0000, 28)
        else
          if i == 92 then DigitRow(28, 0x204f_ce5e_3e25_0261_1000_0000, 28) else
          if i == 93 then DigitRow(0, 0x204f_ce5e_3e25_0261_1000_0000, 28) else
          if i == 94 then DigitRow(29, 0x1_431e_0fae_6d72_17ca_a000_0000, 29) else
          DigitRow(29, 0x1_431e_0fae_6d72_17ca_a000_0000, 29)
      else if i < 112 then
        if i < 100 then
          if i == 96 then DigitRow(0, 0x1_431e_0fae_6d72_17ca_a000_0000, 29) else
          if i == 97 then DigitRow(30, 0xc_9f2c_9cd0_4674_edea_4000_0000, 30) else
          if i == 98 then DigitRow(30, 0xc_9f2c_9cd0_4674_edea_4000_0000, 30) else
          DigitRow(0, 0xc_9f2c_9cd0_4674_edea_4000_0000, 30)
        else if i < 104 then
          if i == 100 then DigitRow(31, 0x7e_37be_2022_c091_4b26_8000_0000, 31) else
          if i == 101 then DigitRow(31, 0x7e_37be_2022_c091_4b26_8000_0000, 31) else
          if i == 102 then DigitRow(0, 0x7e_37be_2022_c091_4b26_8000_0000, 31) else
          DigitRow(32, 0x4ee_2d6d_415b_85ac_ef81_0000_0000, 32)
        else if i < 108 then
          if i == 104 then DigitRow(32, 0x4ee_2d6d_415b_85ac_ef81_0000_0000, 32) else
          if i == 105 then DigitRow(32, 0x4ee_2d6d_415b_85ac_ef81_0000_0000, 32) else
          if i == 106 then DigitRow(0, 0x4ee_2d6d_415b_85ac_ef81_0000_0000, 32) else
          DigitRow(33, 0x314d_c644_8d93_38c1_5b0a_0000_0000, 33)
        else
          if i == 108 then DigitRow(33, 0x314d_c644_8d93_38c1_5b0a_0000_0000, 33) else
          if i == 109 then DigitRow(0, 0x314d_c644_8d93_38c1_5b0a_0000_0000, 33) else
          if i == 110 then DigitRow(34, 0x1_ed09_bead_87c0_378d_8e64_0000_0000, 34) else
          DigitRow(34, 0x1_ed09_bead_87c0_378d_8e64_0000_0000, 34)
      else
        DigitRow(0, 0x1_ed09_bead_87c0_378d_8e64_0000_0000, 34)
  }

  predicate NrDigitsRowHolds(b: nat)
    requires b < 113
  {
    var row := NrDigits(b);
    if row.digits != 0 then
      && row.digits < 39
      && Power10Table128(row.digits - 1) <= PowersOfTwo(b)
      && PowersOfTwo(b + 1) <= Power10Table128(row.digits)
    else
      && 0 < row.digits1 < 38
      && Power10Table128(row.digits1 - 1) <= PowersOfTwo(b)
      && row.threshold == Power10Table128(row.digits1)
      && PowersOfTwo(b + 1) <= Power10Table128(row.digits1 + 1)
  }

  lemma NrDigitsRowsBelow40(b: nat)
    requires b < 40
    ensures NrDigitsRowHolds(b)
  {
  }

  lemma NrDigitsRowsBelow80(b: nat)
    requires 40 <= b < 80
    ensures NrDigitsRowHolds(b)
  {
  }

  lemma NrDigitsRowsBelow113(b: nat)
    requires 80 <= b < 113
    ensures NrDigitsRowHolds(b)
  {
  }

  lemma NrDigitsRows(b: nat)
    requires b < 113
    ensures NrDigitsRowHolds(b)
  {
    hide NrDigitsRowHolds;
    if b < 40 {
      NrDigitsRowsBelow40(b);
    } else if b < 80 {
      NrDigitsRowsBelow80(b);
    } else {
      NrDigitsRowsBelow113(b);
    }
  }

  /** Row b decides the digit count of every number with b + 1 bits. */
  lemma NrDigitsRow(b: nat)
    requires b < 113
    ensures var row := NrDigits(b);
            if row.digits != 0 then
              Pow10(row.digits - 1) <= Pow2(b) && Pow2(b + 1) <= Pow10(row.digits)
            else
              && row.digits1 > 0
              && Pow10(row.digits1 - 1) <= Pow2(b)
              && row.threshold == Pow10(row.digits1)
              && Pow2(b + 1) <= Pow10(row.digits1 + 1)
  {
    hide Power10Table128, PowersOfTwo, NrDigits, Pow10, Pow2;
    NrDigitsRows(b);
    PowersOfTwoValue(b);
    PowersOfTwoValue(b + 1);
    var row := NrDigits(b);
    var d := if row.digits != 0 then row.digits else row.digits1;
    Power10TableValue(d - 1);
    Power10TableValue(d);
    if row.digits == 0 {
      Power10TableValue(d + 1);
    }
  }
}
