/**
 The tables of smilelib/decimal/bid_decimal_data.c that division and fmod read: estimates of a digit count
 from a binary exponent, and the reciprocals that strip trailing zeros.
 */
module DivTables {
  import opened Powers
  import opened Encoding
  import opened Tables

  // bid_estimate_decimal_digits
  function EstimateDigits(i: nat): (r: nat)
    requires i < 129
    ensures 1 <= r <= 39
  {
    if i < 64 then
      if i < 16 then
        if i < 4 then
          if i == 0 then 1 else if i == 1 then 1 else if i == 2 then 1 else 1
        else if i < 8 then
          if i == 4 then 2 else if i == 5 then 2 else if i == 6 then 2 else 3
        else if i < 12 then
          if i == 8 then 3 else if i == 9 then 3 else if i == 10 then 4 else 4
        else
          if i == 12 then 4 else if i == 13 then 4 else if i == 14 then 5 else 5
      else if i < 32 then
        if i < 20 then
          if i == 16 then 5 else if i == 17 then 6 else if i == 18 then 6 else 6
        else if i < 24 then
          if i == 20 then 7 else if i == 21 then 7 else if i == 22 then 7 else 7
        else if i < 28 then
          if i == 24 then 8 else if i == 25 then 8 else if i == 26 then 8 else 9
        else
          if i == 28 then 9 else if i == 29 then 9 else if i == 30 then 10 else 10
      else if i < 48 then
        if i < 36 then
          if i == 32 then 10 else if i == 33 then 10 else if i == 34 then 11 else 11
        else if i < 40 then
          if i == 36 then 11 else if i == 37 then 12 else if i == 38 then 12 else 12
        else if i < 44 then
          if i == 40 then 13 else if i == 41 then 13 else if i == 42 then 13 else 13
        else
          if i == 44 then 14 else if i == 45 then 14 else if i == 46 then 14 else 15
      else
        if i < 52 then
          if i == 48 then 15 else if i == 49 then 15 else if i == 50 then 16 else 16
        else if i < 56 then
          if i == 52 then 16 else if i == 53 then 16 else if i == 54 then 17 else 17
        else if i < 60 then
          if i == 56 then 17 else if i == 57 then 18 else if i == 58 then 18 else 18
        else
          if i == 60 then 19 else if i == 61 then 19 else if i == 62 then 19 else 19
    else if i < 128 then
      if i < 80 then
        if i < 68 then
          if i == 64 then 20 else if i == 65 then 20 else if i == 66 then 20 else 21
        else if i < 72 then
          if i == 68 then 21 else if i == 69 then 21 else if i == 70 then 22 else 22
        else if i < 76 then
          if i == 72 then 22 else if i == 73 then 22 else if i == 74 then 23 else 23
        else
          if i == 76 then 23 else if i == 77 then 24 else if i == 78 then 24 else 24
      else if i < 96 then
        if i < 84 then
          if i == 80 then 25 else if i == 81 then 25 else if i == 82 then 25 else 25
        else if i < 88 then
          if i == 84 then 26 else if i == 85 then 26 else if i == 86 then 26 else 27
        else if i < 92 then
          if i == 88 then 27 else if i == 89 then 27 else if i == 90 then 28 else 28
        else
          if i == 92 then 28 else if i == 93 then 28 else if i == 94 then 29 else 29
      else if i < 112 then
        if i < 100 then
          if i == 96 then 29 else if i == 97 then 30 else if i == 98 then 30 else 30
        else if i < 104 then
          if i == 100 then 31 else if i == 101 then 31 else if i == 102 then 31 else 32
        else if i < 108 then
          if i == 104 then 32 else if i == 105 then 32 else if i == 106 then 32 else 33
        else
          if i == 108 then 33 else if i == 109 then 33 else if i == 110 then 34 else 34
      else
        if i < 116 then
          if i == 112 then 34 else if i == 113 then 35 else if i == 114 then 35 else 35
        else if i < 120 then
          if i == 116 then 35 else if i == 117 then 36 else if i == 118 then 36 else 36
        else if i < 124 then
          if i == 120 then 37 else if i == 121 then 37 else if i == 122 then 37 else 38
        else
          if i == 124 then 38 else if i == 125 then 38 else if i == 126 then 38 else 39
    else
      39
  }

  // bid_power10_index_binexp_128
  function Power10Index(i: nat): nat
    requires i < 125
  {
    if i < 64 then
      if i < 16 then
        if i < 4 then
          if i == 0 then 0xa else if i == 1 then 0xa else if i == 2 then 0xa else 0xa
        else if i < 8 then
          if i == 4 then 0x64 else if i == 5 then 0x64 else if i == 6 then 0x64 else 0x3e8
        else if i < 12 then
          if i == 8 then 0x3e8 else if i == 9 then 0x3e8 else if i == 10 then 0x2710 else 0x2710
        else
          if i == 12 then 0x2710 else if i == 13 then 0x2710 else if i == 14 then 0x1_86a0 else 0x1_86a0
      else if i < 32 then
        if i < 20 then
          if i == 16 then 0x1_86a0 else if i == 17 then 0xf_4240 else if i == 18 then 0xf_4240 else 0xf_4240
        else if i < 24 then
          if i == 20 then 0x98_9680 else if i == 21 then 0x98_9680 else if i == 22 then 0x98_9680 else 0x98_9680
        else if i < 28 then
          if i == 24 then 0x5f5_e100 else if i == 25 then 0x5f5_e100 else if i == 26 then 0x5f5_e100 else
          0x3b9a_ca00
        else
          if i == 28 then 0x3b9a_ca00 else if i == 29 then 0x3b9a_ca00 else if i == 30 then 0x2_540b_e400 else
          0x2_540b_e400
      else if i < 48 then
        if i < 36 then
          if i == 32 then 0x2_540b_e400 else if i == 33 then 0x2_540b_e400 else if i == 34 then 0x17_4876_e800 else
          0x17_4876_e800
        else if i < 40 then
          if i == 36 then 0x17_4876_e800 else if i == 37 then 0xe8_d4a5_1000 else
          if i == 38 then 0xe8_d4a5_1000 else 0xe8_d4a5_1000
        else if i < 44 then
          if i == 40 then 0x918_4e72_a000 else if i == 41 then 0x918_4e72_a000 else
          if i == 42 then 0x918_4e72_a000 else 0x918_4e72_a000
        else
          if i == 44 then 0x5af3_107a_4000 else if i == 45 then 0x5af3_107a_4000 else
          if i == 46 then 0x5af3_107a_4000 else 0x3_8d7e_a4c6_8000
      else
        if i < 52 then
          if i == 48 then 0x3_8d7e_a4c6_8000 else if i == 49 then 0x3_8d7e_a4c6_8000 else
          if i == 50 then 0x23_86f2_6fc1_0000 else 0x23_86f2_6fc1_0000
        else if i < 56 then
          if i == 52 then 0x23_86f2_6fc1_0000 else if i == 53 then 0x23_86f2_6fc1_0000 else
          if i == 54 then 0x163_4578_5d8a_0000 else 0x163_4578_5d8a_0000
        else if i < 60 then
          if i == 56 then 0x163_4578_5d8a_0000 else if i == 57 then 0xde0_b6b3_a764_0000 else
          if i == 58 then 0xde0_b6b3_a764_0000 else 0xde0_b6b3_a764_0000
        else
          if i == 60 then 0x8ac7_2304_89e8_0000 else if i == 61 then 0x8ac7_2304_89e8_0000 else
          if i == 62 then 0x8ac7_2304_89e8_0000 else 0x8ac7_2304_89e8_0000
    else
      if i < 80 then
        if i < 68 then
          if i == 64 then 0x5_6bc7_5e2d_6310_0000 else if i == 65 then 0x5_6bc7_5e2d_6310_0000 else
          if i == 66 then 0x5_6bc7_5e2d_6310_0000 else 0x36_35c9_adc5_dea0_0000
        else if i < 72 then
          if i == 68 then 0x36_35c9_adc5_dea0_0000 else if i == 69 then 0x36_35c9_adc5_dea0_0000 else
          if i == 70 then 0x21e_19e0_c9ba_b240_0000 else 0x21e_19e0_c9ba_b240_0000
        else if i < 76 then
          if i == 72 then 0x21e_19e0_c9ba_b240_0000 else if i == 73 then 0x21e_19e0_c9ba_b240_0000 else
          if i == 74 then 0x152d_02c7_e14a_f680_0000 else 0x152d_02c7_e14a_f680_0000
        else
          if i == 76 then 0x152d_02c7_e14a_f680_0000 else if i == 77 then 0xd3c2_1bce_cced_a100_0000 else
          if i == 78 then 0xd3c2_1bce_cced_a100_0000 else 0xd3c2_1bce_cced_a100_0000
      else if i < 96 then
        if i < 84 then
          if i == 80 then 0x8_4595_1614_0148_4a00_0000 else if i == 81 then 0x8_4595_1614_0148_4a00_0000 else
          if i == 82 then 0x8_4595_1614_0148_4a00_0000 else 0x8_4595_1614_0148_4a00_0000
        else if i < 88 then
          if i == 84 then 0x52_b7d2_dcc8_0cd2_e400_0000 else if i == 85 then 0x52_b7d2_dcc8_0cd2_e400_0000 else
          if i == 86 then 0x52_b7d2_dcc8_0cd2_e400_0000 else 0x33b_2e3c_9fd0_803c_e800_0000
        else if i < 92 then
          if i == 88 then 0x33b_2e3c_9fd0_803c_e800_0000 else if i == 89 then 0x33b_2e3c_9fd0_803c_e800_0000 else
          if i == 90 then 0x204f_ce5e_3e25_0261_1000_0000 else 0x204f_ce5e_3e25_0261_1000_0000
        else
          if i == 92 then 0x204f_ce5e_3e25_0261_1000_0000 else if i == 93 then 0x204f_ce5e_3e25_0261_1000_0000 else
          if i == 94 then 0x1_431e_0fae_6d72_17ca_a000_0000 else 0x1_431e_0fae_6d72_17ca_a000_0000
      else if i < 112 then
        if i < 100 then
          if i == 96 then 0x1_431e_0fae_6d72_17ca_a000_0000 else
          if i == 97 then 0xc_9f2c_9cd0_4674_edea_4000_0000 else
          if i == 98 then 0xc_9f2c_9cd0_4674_edea_4000_0000 else 0xc_9f2c_9cd0_4674_edea_4000_0000
        else if i < 104 then
          if i == 100 then 0x7e_37be_2022_c091_4b26_8000_0000 else
          if i == 101 then 0x7e_37be_2022_c091_4b26_8000_0000 else
          if i == 102 then 0x7e_37be_2022_c091_4b26_8000_0000 else 0x4ee_2d6d_415b_85ac_ef81_0000_0000
        else if i < 108 then
          if i == 104 then 0x4ee_2d6d_415b_85ac_ef81_0000_0000 else
          if i == 105 then 0x4ee_2d6d_415b_85ac_ef81_0000_0000 else
          if i == 106 then 0x4ee_2d6d_415b_85ac_ef81_0000_0000 else 0x314d_c644_8d93_38c1_5b0a_0000_0000
        else
          if i == 108 then 0x314d_c644_8d93_38c1_5b0a_0000_0000 else
          if i == 109 then 0x314d_c644_8d93_38c1_5b0a_0000_0000 else
          if i == 110 then 0x1_ed09_bead_87c0_378d_8e64_0000_0000 else 0x1_ed09_bead_87c0_378d_8e64_0000_0000
      else
        if i < 116 then
          if i == 112 then 0x1_ed09_bead_87c0_378d_8e64_0000_0000 else
          if i == 113 then 0x13_4261_72c7_4d82_2b87_8fe8_0000_0000 else
          if i == 114 then 0x13_4261_72c7_4d82_2b87_8fe8_0000_0000 else 0x13_4261_72c7_4d82_2b87_8fe8_0000_0000
        else if i < 120 then
          if i == 116 then 0x13_4261_72c7_4d82_2b87_8fe8_0000_0000 else
          if i == 117 then 0xc0_97ce_7bc9_0715_b34b_9f10_0000_0000 else
          if i == 118 then 0x785_ee10_d5da_46d9_00f4_36a0_0000_0000 else 0x785_ee10_d5da_46d9_00f4_36a0_0000_0000
        else if i < 124 then
          if i == 120 then 0x785_ee10_d5da_46d9_00f4_36a0_0000_0000 else
          if i == 121 then 0x4b3b_4ca8_5a86_c47a_098a_2240_0000_0000 else
          if i == 122 then 0x4b3b_4ca8_5a86_c47a_098a_2240_0000_0000 else 0x4b3b_4ca8_5a86_c47a_098a_2240_0000_0000
        else
          0x4b3b_4ca8_5a86_c47a_098a_2240_0000_0000
  }

  // bid_reciprocals10_128
  function Reciprocal10Wide(i: nat): (r: nat)
    requires i < 36
    ensures r < W128
  {
    if i < 16 then
      if i < 4 then
        if i == 0 then 0 else if i == 1 then 0x3333_3333_3333_3333_3333_3333_3333_3334 else
        if i == 2 then 0x51e_b851_eb85_1eb8_51eb_851e_b851_eb86 else 0x83_126e_978d_4fdf_3b64_5a1c_ac08_3127
      else if i < 8 then
        if i == 4 then 0x34_6dc5_d638_8659_4af4_f0d8_44d0_13aa else
        if i == 5 then 0x29_f16b_11c6_d1e1_08c3_f3e0_370c_dc88 else
        if i == 6 then 0x21_8def_416b_db1a_6d69_8fe6_9270_b06d else 0x35_afe5_3579_5e90_af0f_4ca4_1d81_1a47
      else if i < 12 then
        if i == 8 then 0x2a_f31d_c461_1873_bf3f_7083_4acd_aea0 else
        if i == 9 then 0x22_5c17_d04d_ad29_65cc_5a02_a23e_254d else
        if i == 10 then 0x36_f9bf_b3af_7b75_6fad_5cd1_0396_a214 else 0x2b_faff_c2f2_c92a_bfbd_e3da_6945_4e76
      else
        if i == 12 then 0x23_2f33_025b_d422_32fe_4fe1_edd1_0b92 else
        if i == 13 then 0x38_4b84_d092_ed03_84ca_1969_7c81_ac1c else
        if i == 14 then 0x2d_0937_0d42_5736_03d4_e121_3067_bce4 else 0x24_075f_3dce_ac2b_3643_e74d_c052_fd83
    else if i < 32 then
      if i < 20 then
        if i == 16 then 0x39_a565_2fb1_1378_56d3_0baf_9a1e_626b else
        if i == 17 then 0x2e_1dea_8c8d_a92d_1242_6fbf_ae7e_b522 else
        if i == 18 then 0x24_e4bb_a3a4_8757_41ce_bfcc_8b98_90e8 else 0x3b_0792_9f6d_a558_694a_cc7a_78f4_1b0d
      else if i < 24 then
        if i == 20 then 0x2f_3942_1924_8446_baa2_3d2e_c729_af3e else
        if i == 21 then 0x25_c768_141d_369e_fbb4_fdbf_05ba_f298 else
        if i == 22 then 0x3c_7240_202e_bdcb_2c54_c931_a2c4_b759 else 0x30_5b66_8025_64a2_89dd_6dc1_4f03_c5e1
      else if i < 28 then
        if i == 24 then 0x26_af85_3351_1d4e_d4b1_249a_a59c_9e4e else
        if i == 25 then 0x3d_e5a1_ebb4_fbb1_544e_a0f7_6f60_fd49 else
        if i == 26 then 0x31_8481_895d_9627_76a5_4d92_bf80_caa1 else 0x27_9d34_6de4_781f_921d_d7a8_9933_d54e
      else
        if i == 28 then 0x3f_61ed_7ca0_c032_8362_f2a7_5b86_2215 else
        if i == 29 then 0x32_b4bd_fd4d_668e_cf82_5bb9_1604_e811 else
        if i == 30 then 0x28_9097_fdd7_853f_0c68_4960_de6a_5341 else 0x20_73ac_cb12_d0ff_3d20_3ab3_e521_dc34
    else
      if i == 32 then 0x33_ec47_ab51_4e65_2e99_f786_3b69_6053 else
      if i == 33 then 0x29_89d2_ef74_3eb7_587b_2c6b_62ba_b376 else
      if i == 34 then 0x21_3b0f_25f6_9892_ad2f_56bc_4efb_c2c5 else 0x1a9_5a5b_7f87_a0ef_0f2a_bc9d_8c96_89d1
  }

  // bid_recip_scale
  function RecipScale(i: nat): (r: nat)
    requires i < 36
    ensures 0 < r < 114 && r != 64
  {
    if i < 16 then
      if i < 4 then
        if i == 0 then 1 else if i == 1 then 1 else if i == 2 then 1 else 1
      else if i < 8 then
        if i == 4 then 3 else if i == 5 then 6 else if i == 6 then 9 else 13
      else if i < 12 then
        if i == 8 then 16 else if i == 9 then 19 else if i == 10 then 23 else 26
      else
        if i == 12 then 29 else if i == 13 then 33 else if i == 14 then 36 else 39
    else if i < 32 then
      if i < 20 then
        if i == 16 then 43 else if i == 17 then 46 else if i == 18 then 49 else 53
      else if i < 24 then
        if i == 20 then 56 else if i == 21 then 59 else if i == 22 then 63 else 66
      else if i < 28 then
        if i == 24 then 69 else if i == 25 then 73 else if i == 26 then 76 else 79
      else
        if i == 28 then 83 else if i == 29 then 86 else if i == 30 then 89 else 92
    else
      if i == 32 then 96 else if i == 33 then 99 else if i == 34 then 102 else 109
  }

  // bid_round_const_table_128, the rows for rounding to nearest
  function HalfConstant(i: nat): nat
    requires i < 36
  {
    if i < 16 then
      if i < 8 then
        if i < 4 then
          if i == 0 then 0 else if i == 1 then 5 else if i == 2 then 0x32 else 0x1f4
        else
          if i == 4 then 0x1388 else if i == 5 then 0xc350 else if i == 6 then 0x7_a120 else 0x4c_4b40
      else
        if i < 12 then
          if i == 8 then 0x2fa_f080 else if i == 9 then 0x1dcd_6500 else if i == 10 then 0x1_2a05_f200 else
          0xb_a43b_7400
        else
          if i == 12 then 0x74_6a52_8800 else if i == 13 then 0x48c_2739_5000 else
          if i == 14 then 0x2d79_883d_2000 else 0x1_c6bf_5263_4000
    else
      if i < 32 then
        if i < 24 then
          if i < 20 then
            if i == 16 then 0x11_c379_37e0_8000 else if i == 17 then 0xb1_a2bc_2ec5_0000 else
            if i == 18 then 0x6f0_5b59_d3b2_0000 else 0x4563_9182_44f4_0000
          else
            if i == 20 then 0x2_b5e3_af16_b188_0000 else if i == 21 then 0x1b_1ae4_d6e2_ef50_0000 else
            if i == 22 then 0x10f_0cf0_64dd_5920_0000 else 0xa96_8163_f0a5_7b40_0000
        else
          if i < 28 then
            if i == 24 then 0x69e1_0de7_6676_d080_0000 else if i == 25 then 0x4_22ca_8b0a_00a4_2500_0000 else
            if i == 26 then 0x29_5be9_6e64_0669_7200_0000 else 0x19d_971e_4fe8_401e_7400_0000
          else
            if i == 28 then 0x1027_e72f_1f12_8130_8800_0000 else if i == 29 then 0xa18f_07d7_36b9_0be5_5000_0000 else
            if i == 30 then 0x6_4f96_4e68_233a_76f5_2000_0000 else 0x3f_1bdf_1011_6048_a593_4000_0000
      else
        if i == 32 then 0x277_16b6_a0ad_c2d6_77c0_8000_0000 else
        if i == 33 then 0x18a6_e322_46c9_9c60_ad85_0000_0000 else
        if i == 34 then 0xf684_df56_c3e0_1bc6_c732_0000_0000 else 0x9_a130_b963_a6c1_15c3_c7f4_0000_0000
  }

  // bid_round_const_table_128, the row for rounding up
  function UpConstant(i: nat): nat
    requires i < 36
  {
    if i < 16 then
      if i < 8 then
        if i < 4 then
          if i == 0 then 0 else if i == 1 then 9 else if i == 2 then 0x63 else 0x3e7
        else
          if i == 4 then 0x270f else if i == 5 then 0x1_869f else if i == 6 then 0xf_423f else 0x98_967f
      else
        if i < 12 then
          if i == 8 then 0x5f5_e0ff else if i == 9 then 0x3b9a_c9ff else if i == 10 then 0x2_540b_e3ff else
          0x17_4876_e7ff
        else
          if i == 12 then 0xe8_d4a5_0fff else if i == 13 then 0x918_4e72_9fff else
          if i == 14 then 0x5af3_107a_3fff else 0x3_8d7e_a4c6_7fff
    else
      if i < 32 then
        if i < 24 then
          if i < 20 then
            if i == 16 then 0x23_86f2_6fc0_ffff else if i == 17 then 0x163_4578_5d89_ffff else
            if i == 18 then 0xde0_b6b3_a763_ffff else 0x8ac7_2304_89e7_ffff
          else
            if i == 20 then 0x5_6bc7_5e2d_630f_ffff else if i == 21 then 0x36_35c9_adc5_de9f_ffff else
            if i == 22 then 0x21e_19e0_c9ba_b23f_ffff else 0x152d_02c7_e14a_f67f_ffff
        else
          if i < 28 then
            if i == 24 then 0xd3c2_1bce_cced_a0ff_ffff else if i == 25 then 0x8_4595_1614_0148_49ff_ffff else
            if i == 26 then 0x52_b7d2_dcc8_0cd2_e3ff_ffff else 0x33b_2e3c_9fd0_803c_e7ff_ffff
          else
            if i == 28 then 0x204f_ce5e_3e25_0261_0fff_ffff else
            if i == 29 then 0x1_431e_0fae_6d72_17ca_9fff_ffff else
            if i == 30 then 0xc_9f2c_9cd0_4674_edea_3fff_ffff else 0x7e_37be_2022_c091_4b26_7fff_ffff
      else
        if i == 32 then 0x4ee_2d6d_415b_85ac_ef80_ffff_ffff else
        if i == 33 then 0x314d_c644_8d93_38c1_5b09_ffff_ffff else
        if i == 34 then 0x1_ed09_bead_87c0_378d_8e63_ffff_ffff else 0x13_4261_72c7_4d82_2b87_8fe7_ffff_ffff
  }

  // bid_reciprocals10_64
  function Reciprocal10Short(i: nat): nat
    requires i < 18
  {
    if i < 16 then
      if i < 4 then
        if i == 0 then 1 else if i == 1 then 0x3333_3333_3333_3334 else if i == 2 then 0x51eb_851e_b851_eb86 else
        0x20c4_9ba5_e353_f7cf
      else if i < 8 then
        if i == 4 then 0x346d_c5d6_3886_594b else if i == 5 then 0x29f1_6b11_c6d1_e109 else
        if i == 6 then 0x218d_ef41_6bdb_1a6e else 0x35af_e535_795e_90b0
      else if i < 12 then
        if i == 8 then 0x2af3_1dc4_6118_73c0 else if i == 9 then 0x225c_17d0_4dad_2966 else
        if i == 10 then 0x36f9_bfb3_af7b_7570 else 0x2bfa_ffc2_f2c9_2ac0
      else
        if i == 12 then 0x232f_3302_5bd4_2233 else if i == 13 then 0x384b_84d0_92ed_0385 else
        if i == 14 then 0x2d09_370d_4257_3604 else 0x2407_5f3d_ceac_2b37
    else
      if i == 16 then 0x39a5_652f_b113_7857 else 0x2e1d_ea8c_8da9_2d13
  }

  // bid_short_recip_scale
  function ShortRecipScale(i: nat): (r: nat)
    requires i < 18
    ensures r < 114
  {
    if i < 16 then
      if i < 4 then
        if i == 0 then 1 else if i == 1 then 1 else if i == 2 then 5 else 7
      else if i < 8 then
        if i == 4 then 11 else if i == 5 then 14 else if i == 6 then 17 else 21
      else if i < 12 then
        if i == 8 then 24 else if i == 9 then 27 else if i == 10 then 31 else 34
      else
        if i == 12 then 37 else if i == 13 then 41 else if i == 14 then 44 else 47
    else
      if i == 16 then 51 else 54
  }

  predicate EstimateRowHolds(b: nat)
    requires b < 114
  {
    var d := EstimateDigits(b);
    && 1 <= d <= 35
    && Power10Index(b) == Power10Table128(d)
    && (if b == 0 then d == 1 else 0x10_0000 * Power10Table128(d - 1) < 0xf_ffff * PowersOfTwo(b))
    && PowersOfTwo(b) < Power10Table128(d)
  }

  lemma EstimateRows(b: nat)
    requires b < 114
    ensures EstimateRowHolds(b)
  {
  }

  /** Row b: the entry counts the digits of 2^b, and only for b == 0 is 2^b near the power of ten below it. */
  lemma EstimateRow(b: nat)
    requires b < 114
    ensures var d := EstimateDigits(b);
            && 1 <= d <= 35 && Power10Index(b) == Pow10(d)
            && (b == 0 ==> d == 1)
            && (b > 0 ==> 0x10_0000 * Pow10(d - 1) < 0xf_ffff * Pow2(b))
            && Pow2(b) < Pow10(d)
  {
    hide Pow10, Pow2, EstimateDigits, Power10Index, Power10Table128, PowersOfTwo;
    EstimateRows(b);
    var d := EstimateDigits(b);
    Power10TableValue(d);
    Power10TableValue(d - 1);
    PowersOfTwoValue(b);
  }

  /** Of all rows, the index entry names the power of ten of its estimate except in four. */
  lemma EstimateRowIff(b: nat)
    requires b < 125
    ensures Power10Index(b) == Pow10(EstimateDigits(b)) <==> b !in {118, 119, 121, 122}
  {
    hide Pow10;
    Power10TableValue(EstimateDigits(b));
    EstimateIndexRows(b);
  }

  lemma EstimateIndexRows(b: nat)
    requires b < 125
    ensures EstimateDigits(b) < 39
    ensures Power10Index(b) == Power10Table128(EstimateDigits(b)) <==> b !in {118, 119, 121, 122}
  {
  }

  predicate StripRowHolds(k: nat)
    requires 0 < k < 36
  {
    var two := W128 * PowersOfTwo(RecipScale(k));
    two < Reciprocal10Wide(k) * Power10Table128(k) <= two + Power10Table128(k)
  }

  predicate ShortStripRowHolds(k: nat)
    requires 0 < k < 18
  {
    var two := W64 * PowersOfTwo(ShortRecipScale(k));
    two < Reciprocal10Short(k) * Power10Table128(k) <= two + Power10Table128(k)
  }

  lemma StripRows(k: nat)
    requires 1 <= k < 36
    ensures StripRowHolds(k)
  {
  }

  lemma ShortStripRows(k: nat)
    requires 1 <= k < 18
    ensures ShortStripRowHolds(k)
  {
  }

  /** Row k of the wide reciprocals: 2^M / 10^k rounded up. */
  lemma StripRow(k: nat)
    requires 0 < k < 36
    ensures var two := W128 * Pow2(RecipScale(k)); two < Reciprocal10Wide(k) * Pow10(k) <= two + Pow10(k)
  {
    hide Pow10, Pow2, Reciprocal10Wide, RecipScale, Power10Table128, PowersOfTwo;
    StripRows(k);
    Power10TableValue(k);
    PowersOfTwoValue(RecipScale(k));
  }

  predicate SubnormalRowHolds(k: nat)
    requires 0 < k < 36
  {
    var p := Power10Table128(k);
    && (10 * TEN34 + p) * p < W128 * PowersOfTwo(RecipScale(k))
    && 2 * HalfConstant(k) == p && UpConstant(k) == p - 1 && p <= 10 * TEN34
  }

  lemma SubnormalRows(k: nat)
    requires 1 <= k < 36
    ensures SubnormalRowHolds(k)
  {
  }

  /** Row k of the rounding constants: half of 10^k, or all but one; the scale leaves room for 35-digit numbers. */
  lemma SubnormalRow(k: nat)
    requires 0 < k < 36
    ensures var p := Pow10(k);
            && (10 * TEN34 + p) * p < W128 * Pow2(RecipScale(k))
            && 2 * HalfConstant(k) == p && UpConstant(k) == p - 1 && p <= 10 * TEN34
  {
    hide Pow10, Pow2, HalfConstant, UpConstant, RecipScale, Power10Table128, PowersOfTwo;
    SubnormalRows(k);
    Power10TableValue(k);
    PowersOfTwoValue(RecipScale(k));
  }

  /** Row k of the 64-bit reciprocals. */
  lemma ShortStripRow(k: nat)
    requires 0 < k < 18
    ensures var two := W64 * Pow2(ShortRecipScale(k)); two < Reciprocal10Short(k) * Pow10(k) <= two + Pow10(k)
  {
    hide Pow10, Pow2, Reciprocal10Short, ShortRecipScale, Power10Table128, PowersOfTwo;
    ShortStripRows(k);
    Power10TableValue(k);
    PowersOfTwoValue(ShortRecipScale(k));
  }
}
