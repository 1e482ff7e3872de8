/** The constants of the hash: the words that it starts and pads with, and one value of its last mixing. */
module HashConstants {
  import opened Crc32c
  import opened FastHash

  lemma TableWords()
    ensures Table(0, 2) == 0xe13b_70f7 && Table(0, 3) == 0x1350_f3f4 && Table(0, 4) == 0xc79a_971f && Table(0, 5) == 0x35f1_141c
    ensures Table(0, 6) == 0x26a1_e7e8 && Table(0, 7) == 0xd4ca_64eb && Table(0, 8) == 0x8ad9_58cf && Table(0, 9) == 0x78b2_dbcc
    ensures Table(0, 10) == 0x6be2_2838 && Table(0, 11) == 0x9989_ab3b && Table(0, 12) == 0x4d43_cfd0 && Table(0, 13) == 0xbf28_4cd3
  {
  }

  /** The hash starts from the entries of the table as the source lists them. */
  lemma StartValue()
    ensures Start() == State(0x1350_f3f4_e13b_70f7, 0x35f1_141c_c79a_971f, 0xd4ca_64eb_26a1_e7e8, 0x78b2_dbcc_8ad9_58cf,
                             0x9989_ab3b_6be2_2838, 0xbf28_4cd3_4d43_cfd0)
  {
    TableWords();
    hide Table;
  }

  lemma PadWords()
    ensures Table(1, 2) == 0x2745_30ee && Table(1, 3) == 0x34e7_a899 && Table(1, 4) == 0x4e8a_61dc && Table(1, 5) == 0x5d28_f9ab
    ensures Table(1, 6) == 0x69cf_5132 && Table(1, 7) == 0x7a6d_c945 && Table(1, 8) == 0x9d14_c3b8 && Table(1, 9) == 0x8eb6_5bcf
    ensures Table(1, 10) == 0xba51_f356 && Table(1, 11) == 0xa9f3_6b21 && Table(1, 12) == 0xd39e_a264 && Table(1, 13) == 0xc03c_3a13
    ensures Table(1, 14) == 0xf4db_928a && Table(1, 15) == 0xe779_0afd && Table(1, 16) == 0x3fc5_f181 && Table(1, 17) == 0x2c67_69f6
  {
  }

  /** So it is with the words that a part of a block is filled up with. */
  lemma PaddingValue()
    ensures Padding()
         == Store64(0x34e7_a899_2745_30ee) + Store64(0x5d28_f9ab_4e8a_61dc) + Store64(0x7a6d_c945_69cf_5132) + Store64(0x8eb6_5bcf_9d14_c3b8)
          + Store64(0xa9f3_6b21_ba51_f356) + Store64(0xc03c_3a13_d39e_a264) + Store64(0xe779_0afd_f4db_928a) + Store64(0x2c67_69f6_3fc5_f181)
  {
    PadWords();
    hide Table, Store64;
  }

  /** The last mixing of one state. */
  lemma MixValue()
    ensures Mix(State(1, 2, 3, 4, 5, 6))
         == Store64(0xbad8_2a17_d34a_1fd3) + Store64(0x5b40_f5ec_2c04_c145) + Store64(0xecb8_7df1_cec8_32ea) + Store64(0x68a6_bff3_00c5_3a73)
  {
  }
}
