/**
 * The entries of mul_log2_radix_table and of the exponent limits are right for every radix. For a radix that is no
 * power of two there are two lemmas: the power of the radix next below a power of two and the one next above, found by
 * interval arithmetic.
 */
module DtoaRadixTables {
  import opened Powers
  import opened DtoaTables
  import opened DtoaLogTable
  import opened DtoaCertificates

  lemma Below3()
    ensures Pow(3, 971) < Pow(2, 1539)
  {
    hide Pow, AtMost;
    AtMostStart(3, 60, 0x88f924eeceeda7ff, 32);
    AtMostDouble(3, 60, 0x88f924eeceeda7ff, 32, 1, 0xdbdcfd23cd3d4158);
    AtMostDouble(3, 121, 0xdbdcfd23cd3d4158, 128, 0, 0xbcd3d7df50ff57c2);
    AtMostDouble(3, 242, 0xbcd3d7df50ff57c2, 320, 1, 0x1a1d77d18ad5e4001);
    AtMostDouble(3, 485, 0x1a1d77d18ad5e4001, 704, 1, 0x7fdff30c944241586);
    AtMostEnd(3, 971, 0x7fdff30c944241586, 1472, 67);
  }

  lemma Above3()
    ensures Pow(2, 1054) < Pow(3, 665)
  {
    hide Pow, AtLeast;
    AtLeastStart(3, 41, 0xfd150e7b3dafdc31, 1);
    AtLeastDouble(3, 41, 0xfd150e7b3dafdc31, 1, 1, 0x2ee97e110eae64a73);
    AtLeastDouble(3, 83, 0x2ee97e110eae64a73, 66, 0, 0x898be44da683135ec);
    AtLeastDouble(3, 166, 0x898be44da683135ec, 196, 0, 0x49e706ccd425853984);
    AtLeastDouble(3, 332, 0x49e706ccd425853984, 456, 1, 0x4000b71a44777e915ac8);
    AtLeastEnd(3, 665, 0x4000b71a44777e915ac8, 976, 78);
  }

  lemma Below5()
    ensures Pow(5, 643) < Pow(2, 1493)
  {
    hide Pow, AtMost;
    AtMostStart(5, 40, 0xeb194f8e1ae525fe, 29);
    AtMostDouble(5, 40, 0xeb194f8e1ae525fe, 29, 0, 0xd7e77a8f87daf7fe);
    AtMostDouble(5, 80, 0xd7e77a8f87daf7fe, 122, 0, 0xb616a12b7fe617ae);
    AtMostDouble(5, 160, 0xb616a12b7fe617ae, 308, 1, 0x28794ebd1be007168);
    AtMostDouble(5, 321, 0x28794ebd1be007168, 680, 1, 0x1ffeaa711e7ab75e1a);
    AtMostEnd(5, 643, 0x1ffeaa711e7ab75e1a, 1424, 69);
  }

  lemma Above5()
    ensures Pow(2, 1832) < Pow(5, 789)
  {
    hide Pow, AtLeast;
    AtLeastStart(5, 49, 0xdaf3f04651d47b4c, 50);
    AtLeastDouble(5, 49, 0xdaf3f04651d47b4c, 50, 0, 0xbb445da9ca61281e);
    AtLeastDouble(5, 98, 0xbb445da9ca61281e, 164, 1, 0x2acf0bf77baab4962);
    AtLeastDouble(5, 197, 0x2acf0bf77baab4962, 392, 0, 0x72897618f5d3531d7);
    AtLeastDouble(5, 394, 0x72897618f5d3531d7, 848, 1, 0x1003992f538abb44f07);
    AtLeastEnd(5, 789, 0x1003992f538abb44f07, 1760, 72);
  }

  lemma Below6()
    ensures Pow(6, 306) < Pow(2, 791)
  {
    hide Pow, AtMost;
    AtMostStart(6, 38, 0x95f983d740ffeac8, 35);
    AtMostDouble(6, 38, 0x95f983d740ffeac8, 35, 0, 0x57dc66aa4e4c5aa8);
    AtMostDouble(6, 76, 0x57dc66aa4e4c5aa8, 134, 1, 0xb4ed45323a9fc342);
    AtMostDouble(6, 153, 0xb4ed45323a9fc342, 332, 0, 0x7fde8537d42553da);
    AtMostEnd(6, 306, 0x7fde8537d42553da, 728, 63);
  }

  lemma Above6()
    ensures Pow(2, 1719) < Pow(6, 665)
  {
    hide Pow, AtLeast;
    AtLeastStart(6, 41, 0xfd150e7b3dafdc31, 42);
    AtLeastDouble(6, 41, 0xfd150e7b3dafdc31, 42, 1, 0x5dd2fc221d5cc94e7);
    AtLeastDouble(6, 83, 0x5dd2fc221d5cc94e7, 148, 0, 0x2262f91369a0c4d7be);
    AtLeastDouble(6, 166, 0x2262f91369a0c4d7be, 360, 0, 0x49e706ccd4258539c03);
    AtLeastDouble(6, 332, 0x49e706ccd4258539c03, 784, 1, 0x80016e3488eefd2386107a);
    AtLeastEnd(6, 665, 0x80016e3488eefd2386107a, 1632, 87);
  }

  lemma Below7()
    ensures Pow(7, 571) < Pow(2, 1603)
  {
    hide Pow, AtMost;
    AtMostStart(7, 35, 0x9900ef4b14151970, 35);
    AtMostDouble(7, 35, 0x9900ef4b14151970, 35, 1, 0x2801ed23c4fc57175);
    AtMostDouble(7, 71, 0x2801ed23c4fc57175, 134, 0, 0x6409a1ee381a4eaa6);
    AtMostDouble(7, 142, 0x6409a1ee381a4eaa6, 332, 1, 0x111a4b018430dfcd4a2);
    AtMostDouble(7, 285, 0x111a4b018430dfcd4a2, 728, 1, 0x7ff84a2a8e29dcfa13c76);
    AtMostEnd(7, 571, 0x7ff84a2a8e29dcfa13c76, 1520, 83);
  }

  lemma Above7()
    ensures Pow(2, 1909) < Pow(7, 680)
  {
    hide Pow, AtLeast;
    AtLeastStart(7, 42, 0xf055ebc0c1b72dfc, 54);
    AtLeastDouble(7, 42, 0xf055ebc0c1b72dfc, 54, 1, 0x62b68801ec048e68d);
    AtLeastDouble(7, 85, 0x62b68801ec048e68d, 172, 0, 0x2610424723b11e4b45);
    AtLeastDouble(7, 170, 0x2610424723b11e4b45, 408, 0, 0x5a8d4b578a5cd4e46bc);
    AtLeastDouble(7, 340, 0x5a8d4b578a5cd4e46bc, 880, 0, 0x2007a6f5a1e418f4da0073);
    AtLeastEnd(7, 680, 0x2007a6f5a1e418f4da0073, 1824, 85);
  }

  lemma Below9()
    ensures Pow(9, 153) < Pow(2, 485)
  {
    hide Pow, AtMost;
    AtMostStart(9, 19, 0x12bf307ae81ffd59, 0);
    AtMostDouble(9, 19, 0x12bf307ae81ffd59, 0, 0, 0x15f719aa939316b);
    AtMostDouble(9, 38, 0x15f719aa939316b, 64, 0, 0x1e278b885f1ab);
    AtMostDouble(9, 76, 0x1e278b885f1ab, 192, 1, 0x1ff7a14df6);
    AtMostEnd(9, 153, 0x1ff7a14df6, 448, 37);
  }

  lemma Above9()
    ensures Pow(2, 1623) < Pow(9, 512)
  {
    hide Pow, AtLeast;
    AtLeastStart(9, 32, 0xad5b52be3de4c89e, 38);
    AtLeastDouble(9, 32, 0xad5b52be3de4c89e, 38, 0, 0x75648e690da5a4d2);
    AtLeastDouble(9, 64, 0x75648e690da5a4d2, 140, 0, 0x35d511ab97c4c850);
    AtLeastDouble(9, 128, 0x35d511ab97c4c850, 344, 0, 0xb51eaa7759a4592);
    AtLeastDouble(9, 256, 0xb51eaa7759a4592, 752, 0, 0x802460b92a3e23);
    AtLeastEnd(9, 512, 0x802460b92a3e23, 1568, 55);
  }

  lemma Below10()
    ensures Pow(10, 497) < Pow(2, 1651)
  {
    hide Pow, AtMost;
    AtMostStart(10, 31, 0xfc6f7c4045812297, 39);
    AtMostDouble(10, 31, 0xfc6f7c4045812297, 39, 0, 0xf8ebad2b84e0d58e);
    AtMostDouble(10, 62, 0xf8ebad2b84e0d58e, 142, 0, 0xf209787bb47d6b89);
    AtMostDouble(10, 124, 0xf209787bb47d6b89, 348, 0, 0xe4d5e82392a4051e);
    AtMostDouble(10, 248, 0xe4d5e82392a4051e, 760, 1, 0x7fd893252cd02bfd7);
    AtMostEnd(10, 497, 0x7fd893252cd02bfd7, 1584, 67);
  }

  lemma Above10()
    ensures Pow(2, 485) < Pow(10, 146)
  {
    hide Pow, AtLeast;
    AtLeastStart(10, 36, 0xc097ce7bc90715b3, 56);
    AtLeastDouble(10, 36, 0xc097ce7bc90715b3, 56, 1, 0x5a8e89d75252446e6);
    AtLeastDouble(10, 73, 0x5a8e89d75252446e6, 176, 0, 0x200888489af95698f3);
    AtLeastEnd(10, 146, 0x200888489af95698f3, 416, 69);
  }

  lemma Below11()
    ensures Pow(11, 37) < Pow(2, 128)
  {
    hide Pow, AtMost;
    AtMostStart(11, 18, 0x4d28cb56c33fa539, 0);
    AtMostDouble(11, 18, 0x4d28cb56c33fa539, 0, 1, 0xffd1390a0adc2fb9);
    AtMostEnd(11, 37, 0xffd1390a0adc2fb9, 64, 64);
  }

  lemma Above11()
    ensures Pow(2, 2003) < Pow(11, 579)
  {
    hide Pow, AtLeast;
    AtLeastStart(11, 36, 0xba0c8692f0a022b4, 61);
    AtLeastDouble(11, 36, 0xba0c8692f0a022b4, 61, 0, 0x8736342a6a2d69af);
    AtLeastDouble(11, 72, 0x8736342a6a2d69af, 186, 0, 0x476a367ec881f2c8);
    AtLeastDouble(11, 144, 0x476a367ec881f2c8, 436, 1, 0xdb24f53e7dee7040);
    AtLeastDouble(11, 289, 0xdb24f53e7dee7040, 936, 1, 0x80f8aca42efbe7d7f);
    AtLeastEnd(11, 579, 0x80f8aca42efbe7d7f, 1936, 67);
  }

  lemma Below12()
    ensures Pow(12, 306) < Pow(2, 1097)
  {
    hide Pow, AtMost;
    AtMostStart(12, 19, 0x8a8d67b600000000, 5);
    AtMostDouble(12, 19, 0x8a8d67b600000000, 5, 0, 0x4afcc1eba07ff564);
    AtMostDouble(12, 38, 0x4afcc1eba07ff564, 74, 0, 0x15f719aa939316aa);
    AtMostDouble(12, 76, 0x15f719aa939316aa, 212, 1, 0x169da8a64753f869);
    AtMostDouble(12, 153, 0x169da8a64753f869, 488, 0, 0x1ff7a14df509550);
    AtMostEnd(12, 306, 0x1ff7a14df509550, 1040, 57);
  }

  lemma Above12()
    ensures Pow(2, 1287) < Pow(12, 359)
  {
    hide Pow, AtLeast;
    AtLeastStart(12, 22, 0xe9ce9f0320000000, 15);
    AtLeastDouble(12, 22, 0xe9ce9f0320000000, 15, 0, 0xd589c437fc0c61c9);
    AtLeastDouble(12, 44, 0xd589c437fc0c61c9, 94, 1, 0x8596e7fe92ce9c9fc);
    AtLeastDouble(12, 89, 0x8596e7fe92ce9c9fc, 252, 1, 0x34489c8267d51a388a2);
    AtLeastDouble(12, 179, 0x34489c8267d51a388a2, 568, 1, 0x8022f220a6a209f4ad08e3);
    AtLeastEnd(12, 359, 0x8022f220a6a209f4ad08e3, 1200, 87);
  }

  lemma Below13()
    ensures Pow(13, 227) < Pow(2, 840)
  {
    hide Pow, AtMost;
    AtMostStart(13, 28, 0xc3acad73bb2b01f8, 40);
    AtMostDouble(13, 28, 0xc3acad73bb2b01f8, 40, 0, 0x959084b7d82ca615);
    AtMostDouble(13, 56, 0x959084b7d82ca615, 144, 1, 0x46ff41cfe948494b6);
    AtMostDouble(13, 113, 0x46ff41cfe948494b6, 352, 1, 0xfff7a4986903ac557a);
    AtMostEnd(13, 227, 0xfff7a4986903ac557a, 768, 72);
  }

  lemma Above13()
    ensures Pow(2, 1717) < Pow(13, 464)
  {
    hide Pow, AtLeast;
    AtLeastStart(13, 29, 0x9efc4cee0812f199, 44);
    AtLeastDouble(13, 29, 0x9efc4cee0812f199, 44, 0, 0x62bc679d5db579a2);
    AtLeastDouble(13, 58, 0x62bc679d5db579a2, 152, 0, 0x2614c9fcd4d095ce);
    AtLeastDouble(13, 116, 0x2614c9fcd4d095ce, 368, 0, 0x5aa2da73e0e2cf3);
    AtLeastDouble(13, 232, 0x5aa2da73e0e2cf3, 800, 0, 0x2016e932af31a8);
    AtLeastEnd(13, 464, 0x2016e932af31a8, 1664, 53);
  }

  lemma Below14()
    ensures Pow(14, 462) < Pow(2, 1759)
  {
    hide Pow, AtMost;
    AtMostStart(14, 28, 0x6167eb8c72520783, 44);
    AtMostDouble(14, 28, 0x6167eb8c72520783, 44, 1, 0x206ded59d81524ced);
    AtMostDouble(14, 57, 0x206ded59d81524ced, 152, 1, 0x39835392283ec39a27);
    AtMostDouble(14, 115, 0x39835392283ec39a27, 368, 1, 0xb4e46c301b0154547266);
    AtMostDouble(14, 231, 0xb4e46c301b0154547266, 800, 0, 0x7fd203f4896298c839cb5dad);
    AtMostEnd(14, 462, 0x7fd203f4896298c839cb5dad, 1664, 95);
  }

  lemma Above14()
    ensures Pow(2, 415) < Pow(14, 109)
  {
    hide Pow, AtLeast;
    AtLeastStart(14, 27, 0xdea4638a29e0112a, 39);
    AtLeastDouble(14, 27, 0xdea4638a29e0112a, 39, 0, 0xc1a18633505a6bcf);
    AtLeastDouble(14, 54, 0xc1a18633505a6bcf, 142, 1, 0x802653fb03cb855b4);
    AtLeastEnd(14, 109, 0x802653fb03cb855b4, 348, 67);
  }

  lemma Below15()
    ensures Pow(15, 290) < Pow(2, 1133)
  {
    hide Pow, AtMost;
    AtMostStart(15, 18, 0xa03bbd655ef08330, 7);
    AtMostDouble(15, 18, 0xa03bbd655ef08330, 7, 0, 0x644abaaf8f853d2c);
    AtMostDouble(15, 36, 0x644abaaf8f853d2c, 78, 0, 0x274a77a99dc2a5c5);
    AtMostDouble(15, 72, 0x274a77a99dc2a5c5, 220, 1, 0x5a749bd22cea9d52);
    AtMostDouble(15, 145, 0x5a749bd22cea9d52, 504, 0, 0x1ff632ad5ce5da2f);
    AtMostEnd(15, 290, 0x1ff632ad5ce5da2f, 1072, 61);
  }

  lemma Above15()
    ensures Pow(2, 965) < Pow(15, 247)
  {
    hide Pow, AtLeast;
    AtLeastStart(15, 30, 0x93b83a81a7cbba03, 54);
    AtLeastDouble(15, 30, 0x93b83a81a7cbba03, 54, 1, 0x4fe94648bd8ceb4ad);
    AtLeastDouble(15, 61, 0x4fe94648bd8ceb4ad, 172, 1, 0x1762b112ca26c20fab6);
    AtLeastDouble(15, 123, 0x1762b112ca26c20fab6, 408, 1, 0x200b3bf965daddea995112);
    AtLeastEnd(15, 247, 0x200b3bf965daddea995112, 880, 85);
  }

  lemma Below17()
    ensures Pow(17, 343) < Pow(2, 1402)
  {
    hide Pow, AtMost;
    AtMostStart(17, 21, 0xe49b24f84e1afa1f, 22);
    AtMostDouble(17, 21, 0xe49b24f84e1afa1f, 22, 0, 0xcc24b7e015256902);
    AtMostDouble(17, 42, 0xcc24b7e015256902, 108, 1, 0xacf732f672986f855);
    AtMostDouble(17, 85, 0xacf732f672986f855, 280, 1, 0x7c2aece1746e5ca6b7c);
    AtMostDouble(17, 171, 0x7c2aece1746e5ca6b7c, 624, 1, 0x3ffd3677cdd4ec6456a48a5);
    AtMostEnd(17, 343, 0x3ffd3677cdd4ec6456a48a5, 1312, 90);
  }

  lemma Above17()
    ensures Pow(2, 1075) < Pow(17, 263)
  {
    hide Pow, AtLeast;
    AtLeastStart(17, 16, 0xa8d3d20c580fde40, 2);
    AtLeastDouble(17, 16, 0xa8d3d20c580fde40, 2, 0, 0x6f56b2f420463eee);
    AtLeastDouble(17, 32, 0x6f56b2f420463eee, 68, 1, 0x3373115533ecaf6b2);
    AtLeastDouble(17, 65, 0x3373115533ecaf6b2, 200, 1, 0xafc7d6a8ecff7e7f1d);
    AtLeastDouble(17, 131, 0xafc7d6a8ecff7e7f1d, 464, 1, 0x803e00b208cee9d93dd7a);
    AtLeastEnd(17, 263, 0x803e00b208cee9d93dd7a, 992, 83);
  }

  lemma Below18()
    ensures Pow(18, 153) < Pow(2, 638)
  {
    hide Pow, AtMost;
    AtMostStart(18, 19, 0x95f983d740ffeac8, 16);
    AtMostDouble(18, 19, 0x95f983d740ffeac8, 16, 0, 0x57dc66aa4e4c5aa8);
    AtMostDouble(18, 38, 0x57dc66aa4e4c5aa8, 96, 0, 0x1e278b885f1aa08b);
    AtMostDouble(18, 76, 0x1e278b885f1aa08b, 256, 1, 0x3fef429bea12a9ed);
    AtMostEnd(18, 153, 0x3fef429bea12a9ed, 576, 62);
  }

  lemma Above18()
    ensures Pow(2, 1497) < Pow(18, 359)
  {
    hide Pow, AtLeast;
    AtLeastStart(18, 22, 0xd589c437fc0c61c9, 28);
    AtLeastDouble(18, 22, 0xd589c437fc0c61c9, 28, 0, 0xb21e8aa8c3be262a);
    AtLeastDouble(18, 44, 0xb21e8aa8c3be262a, 120, 1, 0x8b6c4c066a3845eb9);
    AtLeastDouble(18, 89, 0x8b6c4c066a3845eb9, 304, 1, 0x556ca16b19c15bf7c90);
    AtLeastDouble(18, 179, 0x556ca16b19c15bf7c90, 672, 1, 0x20117b72ee2806196101e93);
    AtLeastEnd(18, 359, 0x20117b72ee2806196101e93, 1408, 89);
  }

  lemma Below19()
    ensures Pow(19, 121) < Pow(2, 514)
  {
    hide Pow, AtMost;
    AtMostStart(19, 15, 0xd2ae3299c1c4aedb, 0);
    AtMostDouble(19, 15, 0xd2ae3299c1c4aedb, 0, 0, 0xad62418d14ea8248);
    AtMostDouble(19, 30, 0xad62418d14ea8248, 64, 0, 0x756df24eef11ea01);
    AtMostDouble(19, 60, 0x756df24eef11ea01, 192, 1, 0x3ff73f7635aba741a);
    AtMostEnd(19, 121, 0x3ff73f7635aba741a, 448, 66);
  }

  lemma Above19()
    ensures Pow(2, 2039) < Pow(19, 480)
  {
    hide Pow, AtLeast;
    AtLeastStart(19, 15, 0xd2ae3299c1c4aedb, 0);
    AtLeastDouble(19, 15, 0xd2ae3299c1c4aedb, 0, 0, 0xad62418d14ea8247);
    AtLeastDouble(19, 30, 0xad62418d14ea8247, 64, 0, 0x756df24eef11e9fe);
    AtLeastDouble(19, 60, 0x756df24eef11e9fe, 192, 0, 0x35ddaeb463174977);
    AtLeastDouble(19, 120, 0x35ddaeb463174977, 448, 0, 0xb558a4dcbb4706f);
    AtLeastDouble(19, 240, 0xb558a4dcbb4706f, 960, 0, 0x807677d1e2bebe);
    AtLeastEnd(19, 480, 0x807677d1e2bebe, 1984, 55);
  }

  lemma Below20()
    ensures Pow(20, 351) < Pow(2, 1517)
  {
    hide Pow, AtMost;
    AtMostStart(20, 21, 0x6c6b935b8bbd4000, 28);
    AtMostDouble(20, 21, 0x6c6b935b8bbd4000, 28, 1, 0x3965adec3190f1c66);
    AtMostDouble(20, 43, 0x3965adec3190f1c66, 120, 1, 0x10160bcb58c16c2f0d2);
    AtMostDouble(20, 87, 0x10160bcb58c16c2f0d2, 304, 1, 0x14374374f3c2c65b930c6c);
    AtMostDouble(20, 175, 0x14374374f3c2c65b930c6c, 672, 1, 0x1feda1669250022a277b5ab11cc3);
    AtMostEnd(20, 351, 0x1feda1669250022a277b5ab11cc3, 1408, 109);
  }

  lemma Above20()
    ensures Pow(2, 631) < Pow(20, 146)
  {
    hide Pow, AtLeast;
    AtLeastStart(20, 18, 0xde0b6b3a76400000, 14);
    AtLeastDouble(20, 18, 0xde0b6b3a76400000, 14, 0, 0xc097ce7bc90715b3);
    AtLeastDouble(20, 36, 0xc097ce7bc90715b3, 92, 1, 0xb51d13aea4a488dcd);
    AtLeastDouble(20, 73, 0xb51d13aea4a488dcd, 248, 0, 0x802221226be55a63e6);
    AtLeastEnd(20, 146, 0x802221226be55a63e6, 560, 71);
  }

  lemma Below21()
    ensures Pow(21, 339) < Pow(2, 1489)
  {
    hide Pow, AtMost;
    AtMostStart(21, 21, 0x9706ff674ed0e952, 29);
    AtMostDouble(21, 21, 0x9706ff674ed0e952, 29, 0, 0x5919417cd6a11dbf);
    AtMostDouble(21, 42, 0x5919417cd6a11dbf, 122, 0, 0x1f029206a85e9406);
    AtMostDouble(21, 84, 0x1f029206a85e9406, 308, 1, 0x4ee213389bb3c07c);
    AtMostDouble(21, 169, 0x4ee213389bb3c07c, 680, 1, 0x1fe716e9535bbe449);
    AtMostEnd(21, 339, 0x1fe716e9535bbe449, 1424, 65);
  }

  lemma Above21()
    ensures Pow(2, 571) < Pow(21, 130)
  {
    hide Pow, AtLeast;
    AtLeastStart(21, 16, 0x9b1a41e8983ab869, 7);
    AtLeastDouble(21, 16, 0x9b1a41e8983ab869, 7, 0, 0x5df8ce811c8df7de);
    AtLeastDouble(21, 32, 0x5df8ce811c8df7de, 78, 1, 0x2d46514edc50cd8be);
    AtLeastDouble(21, 65, 0x2d46514edc50cd8be, 220, 0, 0x801cbe64a67e429b6);
    AtLeastEnd(21, 130, 0x801cbe64a67e429b6, 504, 67);
  }

  lemma Below22()
    ensures Pow(22, 37) < Pow(2, 165)
  {
    hide Pow, AtMost;
    AtMostStart(22, 18, 0x9a5196ad867f4a72, 17);
    AtMostDouble(22, 18, 0x9a5196ad867f4a72, 17, 1, 0x7fe89c85056e17dc7);
    AtMostEnd(22, 37, 0x7fe89c85056e17dc7, 98, 67);
  }

  lemma Above22()
    ensures Pow(2, 1922) < Pow(22, 431)
  {
    hide Pow, AtLeast;
    AtLeastStart(22, 26, 0x3d9d93478aa43dfe, 54);
    AtLeastDouble(22, 26, 0x3d9d93478aa43dfe, 54, 1, 0x1464269f5982a64a1);
    AtLeastDouble(22, 53, 0x1464269f5982a64a1, 172, 1, 0x23bba2bc16b4d7ecd4);
    AtLeastDouble(22, 107, 0x23bba2bc16b4d7ecd4, 408, 1, 0x6dba9090c1baa7d1df17);
    AtLeastDouble(22, 215, 0x6dba9090c1baa7d1df17, 880, 1, 0x40ab8db84851beab7eb5c100e);
    AtLeastEnd(22, 431, 0x40ab8db84851beab7eb5c100e, 1824, 98);
  }

  lemma Below23()
    ensures Pow(23, 403) < Pow(2, 1823)
  {
    hide Pow, AtMost;
    AtMostStart(23, 25, 0x88264bfc908fd4eb, 50);
    AtMostDouble(23, 25, 0x88264bfc908fd4eb, 50, 0, 0x4868b676ff21b2cf);
    AtMostDouble(23, 50, 0x4868b676ff21b2cf, 164, 0, 0x147b1177b23faa0a);
    AtMostDouble(23, 100, 0x147b1177b23faa0a, 392, 1, 0x25af9787537807dd);
    AtMostDouble(23, 201, 0x25af9787537807dd, 848, 1, 0x7f993b89a133ecc0);
    AtMostEnd(23, 403, 0x7f993b89a133ecc0, 1760, 63);
  }

  lemma Above23()
    ensures Pow(2, 864) < Pow(23, 191)
  {
    hide Pow, AtLeast;
    AtLeastStart(23, 23, 0x83c63727bebaa285, 41);
    AtLeastDouble(23, 23, 0x83c63727bebaa285, 41, 1, 0x618169834f2f35689);
    AtLeastDouble(23, 47, 0x618169834f2f35689, 146, 1, 0x3562c7db75818ca424d);
    AtLeastDouble(23, 95, 0x3562c7db75818ca424d, 356, 1, 0x1000f27fd62383d821c9375);
    AtLeastEnd(23, 191, 0x1000f27fd62383d821c9375, 776, 88);
  }

  lemma Below24()
    ensures Pow(24, 306) < Pow(2, 1403)
  {
    hide Pow, AtMost;
    AtMostStart(24, 19, 0x8a8d67b600000000, 24);
    AtMostDouble(24, 19, 0x8a8d67b600000000, 24, 0, 0x4afcc1eba07ff564);
    AtMostDouble(24, 38, 0x4afcc1eba07ff564, 112, 0, 0x15f719aa939316aa);
    AtMostDouble(24, 76, 0x15f719aa939316aa, 288, 1, 0x2d3b514c8ea7f0d1);
    AtMostDouble(24, 153, 0x2d3b514c8ea7f0d1, 640, 0, 0x7fde8537d42553e);
    AtMostEnd(24, 306, 0x7fde8537d42553e, 1344, 59);
  }

  lemma Above24()
    ensures Pow(2, 1646) < Pow(24, 359)
  {
    hide Pow, AtLeast;
    AtLeastStart(24, 22, 0xe9ce9f0320000000, 37);
    AtLeastDouble(24, 22, 0xe9ce9f0320000000, 37, 0, 0xd589c437fc0c61c9);
    AtLeastDouble(24, 44, 0xd589c437fc0c61c9, 138, 1, 0x10b2dcffd259d393f8);
    AtLeastDouble(24, 89, 0x10b2dcffd259d393f8, 340, 1, 0x1a244e4133ea8d1c4514);
    AtLeastDouble(24, 179, 0x1a244e4133ea8d1c4514, 744, 1, 0x40117910535104fa56980cc3);
    AtLeastEnd(24, 359, 0x40117910535104fa56980cc3, 1552, 94);
  }

  lemma Below25()
    ensures Pow(25, 424) < Pow(2, 1969)
  {
    hide Pow, AtMost;
    AtMostStart(25, 26, 0xd5d238a4abe98069, 57);
    AtMostDouble(25, 26, 0xd5d238a4abe98069, 57, 1, 0x1170cb642b133e8daf);
    AtMostDouble(25, 53, 0x1170cb642b133e8daf, 178, 0, 0x1302cb5e6f642a7c0b5);
    AtMostDouble(25, 106, 0x1302cb5e6f642a7c0b5, 420, 0, 0x1696a37d391835ded05ff);
    AtMostDouble(25, 212, 0x1696a37d391835ded05ff, 904, 0, 0x1fe3cbd84f7c5970fe6d0e648);
    AtMostEnd(25, 424, 0x1fe3cbd84f7c5970fe6d0e648, 1872, 97);
  }

  lemma Above25()
    ensures Pow(2, 339) < Pow(25, 73)
  {
    hide Pow, AtLeast;
    AtLeastStart(25, 18, 0xc097ce7bc90715b3, 20);
    AtLeastDouble(25, 18, 0xc097ce7bc90715b3, 20, 0, 0x90e40fbeea1d3a4a);
    AtLeastDouble(25, 36, 0x90e40fbeea1d3a4a, 104, 1, 0x802221226be55a637);
    AtLeastEnd(25, 73, 0x802221226be55a637, 272, 67);
  }

  lemma Below26()
    ensures Pow(26, 227) < Pow(2, 1067)
  {
    hide Pow, AtMost;
    AtMostStart(26, 14, 0xdfd05e0d10dd9000, 2);
    AtMostDouble(26, 14, 0xdfd05e0d10dd9000, 2, 0, 0xc3acad73bb2b01f8);
    AtMostDouble(26, 28, 0xc3acad73bb2b01f8, 68, 0, 0x959084b7d82ca615);
    AtMostDouble(26, 56, 0x959084b7d82ca615, 200, 1, 0x8dfe839fd2909296b);
    AtMostDouble(26, 113, 0x8dfe839fd2909296b, 464, 1, 0x7ffbd24c3481d62aa01);
    AtMostEnd(26, 227, 0x7ffbd24c3481d62aa01, 992, 75);
  }

  lemma Above26()
    ensures Pow(2, 1114) < Pow(26, 237)
  {
    hide Pow, AtLeast;
    AtLeastStart(26, 14, 0x6fe82f06886ec800, 3);
    AtLeastDouble(26, 14, 0x6fe82f06886ec800, 3, 1, 0x4f7e2677040978cc8);
    AtLeastDouble(26, 29, 0x4f7e2677040978cc8, 70, 1, 0x281c8a17ee11b96a1fa);
    AtLeastDouble(26, 59, 0x281c8a17ee11b96a1fa, 204, 0, 0x648ee55fa1f6cb979939c);
    AtLeastDouble(26, 118, 0x648ee55fa1f6cb979939c, 472, 1, 0x402feacfb67bab8ad59e22e8c7d);
    AtLeastEnd(26, 237, 0x402feacfb67bab8ad59e22e8c7d, 1008, 106);
  }

  lemma Below27()
    ensures Pow(27, 102) < Pow(2, 485)
  {
    hide Pow, AtMost;
    AtMostStart(27, 25, 0xea4bbc70d0cb9c6a, 55);
    AtMostDouble(27, 25, 0xea4bbc70d0cb9c6a, 55, 1, 0x169da8a64753f86812);
    AtMostDouble(27, 51, 0x169da8a64753f86812, 174, 0, 0x1ff7a14df50954f5d8d);
    AtMostEnd(27, 102, 0x1ff7a14df50954f5d8d, 412, 73);
  }

  lemma Above27()
    ensures Pow(2, 1707) < Pow(27, 359)
  {
    hide Pow, AtLeast;
    AtLeastStart(27, 22, 0xc306bd1605a161b1, 41);
    AtLeastDouble(27, 22, 0xc306bd1605a161b1, 41, 0, 0x9493443cf545a499);
    AtLeastDouble(27, 44, 0x9493443cf545a499, 146, 1, 0x9182e69a7de5f6a0a);
    AtLeastDouble(27, 89, 0x9182e69a7de5f6a0a, 356, 1, 0x8b925c86ec3c91cb0ed);
    AtLeastDouble(27, 179, 0x8b925c86ec3c91cb0ed, 776, 1, 0x8068f303d0cad1c7d7d2911);
    AtLeastEnd(27, 359, 0x8068f303d0cad1c7d7d2911, 1616, 91);
  }

  lemma Below28()
    ensures Pow(28, 353) < Pow(2, 1697)
  {
    hide Pow, AtMost;
    AtMostStart(28, 22, 0xd909e61d40898444, 42);
    AtMostDouble(28, 22, 0xd909e61d40898444, 42, 0, 0xb801c87f94503f36);
    AtMostDouble(28, 44, 0xb801c87f94503f36, 148, 0, 0x8442903a933a1ad0);
    AtMostDouble(28, 88, 0x8442903a933a1ad0, 360, 0, 0x4454b60b1749c8a5);
    AtMostDouble(28, 176, 0x4454b60b1749c8a5, 784, 1, 0x1feaf24c42edf10fc);
    AtMostEnd(28, 353, 0x1feaf24c42edf10fc, 1632, 65);
  }

  lemma Above28()
    ensures Pow(2, 524) < Pow(28, 109)
  {
    hide Pow, AtLeast;
    AtLeastStart(28, 13, 0x5a3c23e39c000000, 0);
    AtLeastDouble(28, 13, 0x5a3c23e39c000000, 0, 1, 0x37a918e28a78044a8);
    AtLeastDouble(28, 27, 0x37a918e28a78044a8, 64, 0, 0xc1a18633505a6bcf4);
    AtLeastDouble(28, 54, 0xc1a18633505a6bcf4, 192, 1, 0x1004ca7f607970ab746c);
    AtLeastEnd(28, 109, 0x1004ca7f607970ab746c, 448, 76);
  }

  lemma Below29()
    ensures Pow(29, 169) < Pow(2, 821)
  {
    hide Pow, AtMost;
    AtMostStart(29, 21, 0x819237f3896f2f31, 39);
    AtMostDouble(29, 21, 0x819237f3896f2f31, 39, 0, 0x4194afe74e855d1e);
    AtMostDouble(29, 42, 0x4194afe74e855d1e, 142, 0, 0x10ccd7af523091d7);
    AtMostDouble(29, 84, 0x10ccd7af523091d7, 348, 1, 0x1ff91f30cee56d05);
    AtMostEnd(29, 169, 0x1ff91f30cee56d05, 760, 61);
  }

  lemma Above29()
    ensures Pow(2, 1676) < Pow(29, 345)
  {
    hide Pow, AtLeast;
    AtLeastStart(29, 21, 0x819237f3896f2f30, 39);
    AtLeastDouble(29, 21, 0x819237f3896f2f30, 39, 1, 0x76dd7ed33e51b8c30);
    AtLeastDouble(29, 43, 0x76dd7ed33e51b8c30, 142, 0, 0x3730f08ef5018f1500);
    AtLeastDouble(29, 86, 0x3730f08ef5018f1500, 348, 0, 0xbe610b884eee748525e);
    AtLeastDouble(29, 172, 0xbe610b884eee748525e, 760, 1, 0x1009c9a74a266851b96c1614);
    AtLeastEnd(29, 345, 0x1009c9a74a266851b96c1614, 1584, 92);
  }

  lemma Below30()
    ensures Pow(30, 290) < Pow(2, 1423)
  {
    hide Pow, AtMost;
    AtMostStart(30, 18, 0xa03bbd655ef08330, 25);
    AtMostDouble(30, 18, 0xa03bbd655ef08330, 25, 0, 0x644abaaf8f853d2c);
    AtMostDouble(30, 36, 0x644abaaf8f853d2c, 114, 0, 0x274a77a99dc2a5c5);
    AtMostDouble(30, 72, 0x274a77a99dc2a5c5, 292, 1, 0xb4e937a459d53aa3);
    AtMostDouble(30, 145, 0xb4e937a459d53aa3, 648, 0, 0x7fd8cab5739768b7);
    AtMostEnd(30, 290, 0x7fd8cab5739768b7, 1360, 63);
  }

  lemma Above30()
    ensures Pow(2, 1212) < Pow(30, 247)
  {
    hide Pow, AtLeast;
    AtLeastStart(30, 15, 0xc276c58b2ee0fde0, 10);
    AtLeastDouble(30, 15, 0xc276c58b2ee0fde0, 10, 0, 0x93b83a81a7cbba03);
    AtLeastDouble(30, 30, 0x93b83a81a7cbba03, 84, 1, 0x9fd28c917b19d695a);
    AtLeastDouble(30, 61, 0x9fd28c917b19d695a, 232, 1, 0xbb1588965136107d5b5);
    AtLeastDouble(30, 123, 0xbb1588965136107d5b5, 528, 1, 0x10059dfcb2ed6ef54cb63cda);
    AtLeastEnd(30, 247, 0x10059dfcb2ed6ef54cb63cda, 1120, 92);
  }

  lemma Below31()
    ensures Pow(31, 131) < Pow(2, 649)
  {
    hide Pow, AtMost;
    AtMostStart(31, 16, 0x9a09afbae83050aa, 16);
    AtMostDouble(31, 16, 0x9a09afbae83050aa, 16, 0, 0x5cafa7cab31f865b);
    AtMostDouble(31, 32, 0x5cafa7cab31f865b, 96, 1, 0x410486af0355ad7d0);
    AtMostDouble(31, 65, 0x410486af0355ad7d0, 256, 1, 0x1ffe642b224a4315ab0);
    AtMostEnd(31, 131, 0x1ffe642b224a4315ab0, 576, 73);
  }

  lemma Above31()
    ensures Pow(2, 1838) < Pow(31, 371)
  {
    hide Pow, AtLeast;
    AtLeastStart(31, 23, 0xf6aee0663c1de6a7, 50);
    AtLeastDouble(31, 23, 0xf6aee0663c1de6a7, 50, 0, 0xedb48eba4b3641f6);
    AtLeastDouble(31, 46, 0xedb48eba4b3641f6, 164, 0, 0xdcb7cf9df4cf6d6f);
    AtLeastDouble(31, 92, 0xdcb7cf9df4cf6d6f, 392, 1, 0x170b41a96d2631a859);
    AtLeastDouble(31, 185, 0x170b41a96d2631a859, 848, 1, 0x404dc319b97340a35fe3);
    AtLeastEnd(31, 371, 0x404dc319b97340a35fe3, 1760, 78);
  }

  lemma Below33()
    ensures Pow(33, 45) < Pow(2, 227)
  {
    hide Pow, AtMost;
    AtMostStart(33, 22, 0xfbe4c29d30033760, 47);
    AtMostDouble(33, 22, 0xfbe4c29d30033760, 47, 1, 0x1ff326a37a7ae4a4d0);
    AtMostEnd(33, 45, 0x1ff326a37a7ae4a4d0, 158, 69);
  }

  lemma Above33()
    ensures Pow(2, 1932) < Pow(33, 383)
  {
    hide Pow, AtLeast;
    AtLeastStart(33, 23, 0x40f0fa2c8660d446, 54);
    AtLeastDouble(33, 23, 0x40f0fa2c8660d446, 54, 1, 0x21fa55d75b0131a77);
    AtLeastDouble(33, 47, 0x21fa55d75b0131a77, 172, 1, 0x94d25c96a6755c1894);
    AtLeastDouble(33, 95, 0x94d25c96a6755c1894, 408, 1, 0xb2700e5315ccad5bec882);
    AtLeastDouble(33, 191, 0xb2700e5315ccad5bec882, 880, 1, 0x100860a3fa8ded9626a9a458af27);
    AtLeastEnd(33, 383, 0x100860a3fa8ded9626a9a458af27, 1824, 108);
  }

  lemma Below34()
    ensures Pow(34, 343) < Pow(2, 1745)
  {
    hide Pow, AtMost;
    AtMostStart(34, 21, 0xe49b24f84e1afa1f, 43);
    AtMostDouble(34, 21, 0xe49b24f84e1afa1f, 43, 0, 0xcc24b7e015256902);
    AtMostDouble(34, 42, 0xcc24b7e015256902, 150, 1, 0x159ee65ece530df0aa);
    AtMostDouble(34, 85, 0x159ee65ece530df0aa, 364, 1, 0x3e157670ba372e535bdf);
    AtMostDouble(34, 171, 0x3e157670ba372e535bdf, 792, 1, 0x1ffe9b3be6ea76322b513d49e);
    AtMostEnd(34, 343, 0x1ffe9b3be6ea76322b513d49e, 1648, 97);
  }

  lemma Above34()
    ensures Pow(2, 1338) < Pow(34, 263)
  {
    hide Pow, AtLeast;
    AtLeastStart(34, 16, 0xa8d3d20c580fde40, 18);
    AtLeastDouble(34, 16, 0xa8d3d20c580fde40, 18, 0, 0x6f56b2f420463eee);
    AtLeastDouble(34, 32, 0x6f56b2f420463eee, 100, 1, 0x66e622aa67d95ed64);
    AtLeastDouble(34, 65, 0x66e622aa67d95ed64, 264, 1, 0x57e3eb54767fbf3f8ef);
    AtLeastDouble(34, 131, 0x57e3eb54767fbf3f8ef, 592, 1, 0x401f0059046774ec9f8f421);
    AtLeastEnd(34, 263, 0x401f0059046774ec9f8f421, 1248, 90);
  }

  lemma Below35()
    ensures Pow(35, 379) < Pow(2, 1944)
  {
    hide Pow, AtMost;
    AtMostStart(35, 23, 0x7dabced1b488e687, 55);
    AtMostDouble(35, 23, 0x7dabced1b488e687, 55, 1, 0x86f3b1aabea026a17);
    AtMostDouble(35, 47, 0x86f3b1aabea026a17, 174, 0, 0x472405f9850319f588);
    AtMostDouble(35, 94, 0x472405f9850319f588, 412, 1, 0x2b3ef0d690564f0773cc6);
    AtMostDouble(35, 189, 0x2b3ef0d690564f0773cc6, 888, 1, 0xffb12958bcb71abe86dc071ad0);
    AtMostEnd(35, 379, 0xffb12958bcb71abe86dc071ad0, 1840, 104);
  }

  lemma Above35()
    ensures Pow(2, 1349) < Pow(35, 263)
  {
    hide Pow, AtLeast;
    AtLeastStart(35, 16, 0x863a0b7a19f0fe90, 19);
    AtLeastDouble(35, 16, 0x863a0b7a19f0fe90, 19, 0, 0x4660d12d06ffc429);
    AtLeastDouble(35, 32, 0x4660d12d06ffc429, 102, 1, 0x2a52e254c160093ab);
    AtLeastDouble(35, 65, 0x2a52e254c160093ab, 268, 1, 0xf4e78a7f7cb0336535);
    AtLeastDouble(35, 131, 0xf4e78a7f7cb0336535, 600, 1, 0x200824c2131e2509b4de8c);
    AtLeastEnd(35, 263, 0x200824c2131e2509b4de8c, 1264, 85);
  }

  lemma Below36()
    ensures Pow(36, 153) < Pow(2, 791)
  {
    hide Pow, AtMost;
    AtMostStart(36, 19, 0x95f983d740ffeac8, 35);
    AtMostDouble(36, 19, 0x95f983d740ffeac8, 35, 0, 0x57dc66aa4e4c5aa8);
    AtMostDouble(36, 38, 0x57dc66aa4e4c5aa8, 134, 0, 0x1e278b885f1aa08b);
    AtMostDouble(36, 76, 0x1e278b885f1aa08b, 332, 1, 0x7fde8537d42553da);
    AtMostEnd(36, 153, 0x7fde8537d42553da, 728, 63);
  }

  lemma Above36()
    ensures Pow(2, 1856) < Pow(36, 359)
  {
    hide Pow, AtLeast;
    AtLeastStart(36, 22, 0xd589c437fc0c61c9, 50);
    AtLeastDouble(36, 22, 0xd589c437fc0c61c9, 50, 0, 0xb21e8aa8c3be262a);
    AtLeastDouble(36, 44, 0xb21e8aa8c3be262a, 164, 1, 0x116d8980cd4708bd72);
    AtLeastDouble(36, 89, 0x116d8980cd4708bd72, 392, 1, 0x2ab650b58ce0adfbe483);
    AtLeastDouble(36, 179, 0x2ab650b58ce0adfbe483, 848, 1, 0x1008bdb97714030cb0833537c);
    AtLeastEnd(36, 359, 0x1008bdb97714030cb0833537c, 1760, 96);
  }

  lemma LowNeighbours(radix: int) returns (p1: nat, q1: nat, p2: nat, q2: nat)
    requires 2 <= radix <= 12 && RadixBits(radix) < 0
    ensures Enclosed(radix, p1, q1, p2, q2)
  {
    hide Pow;
    match radix {
      case 3 => Below3(); Above3(); return 971, 1539, 665, 1054;
      case 5 => Below5(); Above5(); return 643, 1493, 789, 1832;
      case 6 => Below6(); Above6(); return 306, 791, 665, 1719;
      case 7 => Below7(); Above7(); return 571, 1603, 680, 1909;
      case 9 => Below9(); Above9(); return 153, 485, 512, 1623;
      case 10 => Below10(); Above10(); return 497, 1651, 146, 485;
      case 11 => Below11(); Above11(); return 37, 128, 579, 2003;
      case 12 => Below12(); Above12(); return 306, 1097, 359, 1287;
    }
  }

  lemma MiddleNeighbours(radix: int) returns (p1: nat, q1: nat, p2: nat, q2: nat)
    requires 13 <= radix <= 24 && RadixBits(radix) < 0
    ensures Enclosed(radix, p1, q1, p2, q2)
  {
    hide Pow;
    match radix {
      case 13 => Below13(); Above13(); return 227, 840, 464, 1717;
      case 14 => Below14(); Above14(); return 462, 1759, 109, 415;
      case 15 => Below15(); Above15(); return 290, 1133, 247, 965;
      case 17 => Below17(); Above17(); return 343, 1402, 263, 1075;
      case 18 => Below18(); Above18(); return 153, 638, 359, 1497;
      case 19 => Below19(); Above19(); return 121, 514, 480, 2039;
      case 20 => Below20(); Above20(); return 351, 1517, 146, 631;
      case 21 => Below21(); Above21(); return 339, 1489, 130, 571;
      case 22 => Below22(); Above22(); return 37, 165, 431, 1922;
      case 23 => Below23(); Above23(); return 403, 1823, 191, 864;
      case 24 => Below24(); Above24(); return 306, 1403, 359, 1646;
    }
  }

  lemma HighNeighbours(radix: int) returns (p1: nat, q1: nat, p2: nat, q2: nat)
    requires 25 <= radix <= 36 && RadixBits(radix) < 0
    ensures Enclosed(radix, p1, q1, p2, q2)
  {
    hide Pow;
    match radix {
      case 25 => Below25(); Above25(); return 424, 1969, 73, 339;
      case 26 => Below26(); Above26(); return 227, 1067, 237, 1114;
      case 27 => Below27(); Above27(); return 102, 485, 359, 1707;
      case 28 => Below28(); Above28(); return 353, 1697, 109, 524;
      case 29 => Below29(); Above29(); return 169, 821, 345, 1676;
      case 30 => Below30(); Above30(); return 290, 1423, 247, 1212;
      case 31 => Below31(); Above31(); return 131, 649, 371, 1838;
      case 33 => Below33(); Above33(); return 45, 227, 383, 1932;
      case 34 => Below34(); Above34(); return 343, 1745, 263, 1338;
      case 35 => Below35(); Above35(); return 379, 1944, 263, 1349;
      case 36 => Below36(); Above36(); return 153, 791, 359, 1856;
    }
  }

  /** They leave room for no fraction with a small denominator, and they bound the entries of the tables. */
  predicate Fits(radix: int, p1: nat, q1: nat, p2: nat, q2: nat)
    requires 2 <= radix <= RADIX_MAX
  {
    var mult := MUL_LOG2_RADIX[radix - 2];
    && q1 > 0 && q2 > 0 && p2 > 0 && p2 * q1 == p1 * q2 + 1 && q1 + q2 > 2048
    && p1 * TWO24 < mult * q1 && mult * q2 < p2 * TWO24
    && 1024 * p2 <= q2 * MAX_EXPONENT[radix - 2] && 1075 * p2 <= q2 * -MIN_EXPONENT[radix - 2]
  }

  /** The neighbours of the logarithm of a radix that is no power of two. */
  ghost predicate Enclosed(radix: int, p1: nat, q1: nat, p2: nat, q2: nat)
    requires 2 <= radix <= RADIX_MAX
  {
    Pow(radix, p1) < Pow(2, q1) && Pow(2, q2) < Pow(radix, p2) && Fits(radix, p1, q1, p2, q2)
  }

  lemma MinNegative(radix: int)
    requires 2 <= radix <= RADIX_MAX
    ensures MIN_EXPONENT[radix - 2] < 0
  {
  }

  /** All entries are right. */
  lemma TablesOk(radix: int)
    requires 2 <= radix <= RADIX_MAX
    ensures LogTableOk(radix) && ExponentsOk(radix)
  {
    hide Pow, LogTableOk, ExponentsOk;
    if RadixBits(radix) > 0 {
      RadixPowerOfTwo(radix, RadixBits(radix));
    } else {
      var p1: nat, q1: nat, p2: nat, q2: nat;
      if radix <= 12 { p1, q1, p2, q2 := LowNeighbours(radix); }
      else if radix <= 24 { p1, q1, p2, q2 := MiddleNeighbours(radix); }
      else { p1, q1, p2, q2 := HighNeighbours(radix); }
      MinNegative(radix);
      CertifiedTable(radix, p1, q1, p2, q2);
      LimitsFromCertificate(radix, p2, q2);
    }
  }

  /** mul_log2_radix: the exponent of the largest power of the radix that is at most 2^a. */
  method MulLog2Radix(a: int, radix: int) returns (k: int)
    requires 2 <= radix <= RADIX_MAX && InRange(a)
    ensures FloorLog(radix, a, k)
  {
    TablesOk(radix);
    var bits := RadixBits(radix);
    if bits > 0 {
      var a1 := a;
      if a1 < 0 {
        a1 := a1 - (bits - 1);
      }
      k := Quotient(a1, bits);
      PowerOfTwoRadix(radix, bits, a, k);
    } else {
      var mult := MUL_LOG2_RADIX[radix - 2];
      k := a * mult / TWO24;
    }
  }
}
