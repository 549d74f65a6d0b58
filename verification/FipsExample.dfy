/** The example of FIPS 180-4: the message "abc", with its message schedule, the working variables
    after every round, and the digest. */
module FipsExample {
  import opened Fips180

  const ABC: seq<Byte> := [0x61, 0x62, 0x63]

  // ---- The block ----

  lemma LengthBytes()
    ensures BigEndian(24, 8) == [0, 0, 0, 0, 0, 0, 0, 0x18]
  {
    assert BigEndian(0, 1) == [0];
    assert BigEndian(0, 2) == [0, 0];
    assert BigEndian(0, 3) == [0, 0, 0];
    assert BigEndian(0, 4) == [0, 0, 0, 0];
    assert BigEndian(0, 5) == [0, 0, 0, 0, 0];
    assert BigEndian(0, 6) == [0, 0, 0, 0, 0, 0];
    assert BigEndian(0, 7) == [0, 0, 0, 0, 0, 0, 0];
  }

  /** The padded message is one block. */
  lemma Block()
    ensures Hashable(ABC) && Pad(ABC) == ABC + [0x80] + Zeros(59) + [0x18]
  {
    LengthBytes();
  }

  // ---- The message schedule ----

  ghost predicate IsBlock(b: seq<Byte>) { b == ABC + [0x80] + Zeros(59) + [0x18] }

  lemma Words0(b: seq<Byte>)
    requires IsBlock(b)
    ensures Schedule(b, 0) == 0x61626380 && Schedule(b, 1) == 0x00000000
    ensures Schedule(b, 2) == 0x00000000 && Schedule(b, 3) == 0x00000000
    ensures Schedule(b, 4) == 0x00000000 && Schedule(b, 5) == 0x00000000
    ensures Schedule(b, 6) == 0x00000000 && Schedule(b, 7) == 0x00000000
    ensures Schedule(b, 8) == 0x00000000 && Schedule(b, 9) == 0x00000000
    ensures Schedule(b, 10) == 0x00000000 && Schedule(b, 11) == 0x00000000
    ensures Schedule(b, 12) == 0x00000000 && Schedule(b, 13) == 0x00000000
    ensures Schedule(b, 14) == 0x00000000 && Schedule(b, 15) == 0x00000018
  {
    assert forall t :: 1 <= t < 15 ==> b[4 * t..4 * t + 4] == [0, 0, 0, 0];
    assert b[0..4] == [0x61, 0x62, 0x63, 0x80] && b[60..64] == [0, 0, 0, 0x18];
    assert BytesToWord([0, 0, 0, 0]) == 0;
  }

  lemma NextWord(b: seq<Byte>, t: nat)
    requires |b| == 64 && t >= 16
    ensures Schedule(b, t) == Add(Add(Add(SmallSigma1(Schedule(b, t - 2)), Schedule(b, t - 7)),
                                      SmallSigma0(Schedule(b, t - 15))), Schedule(b, t - 16))
  {}

  lemma Words16(b: seq<Byte>)
    requires IsBlock(b)
    ensures Schedule(b, 16) == 0x61626380 && Schedule(b, 17) == 0x000f0000
    ensures Schedule(b, 18) == 0x7da86405 && Schedule(b, 19) == 0x600003c6
    ensures Schedule(b, 20) == 0x3e9d7b78 && Schedule(b, 21) == 0x0183fc00
    ensures Schedule(b, 22) == 0x12dcbfdb && Schedule(b, 23) == 0xe2e2c38e
  {
    hide Schedule;
    Words0(b);
    NextWord(b, 16);
    NextWord(b, 17);
    NextWord(b, 18);
    NextWord(b, 19);
    NextWord(b, 20);
    NextWord(b, 21);
    NextWord(b, 22);
    NextWord(b, 23);
  }

  lemma Words24(b: seq<Byte>)
    requires IsBlock(b)
    ensures Schedule(b, 24) == 0xc8215c1a && Schedule(b, 25) == 0xb73679a2
    ensures Schedule(b, 26) == 0xe5bc3909 && Schedule(b, 27) == 0x32663c5b
    ensures Schedule(b, 28) == 0x9d209d67 && Schedule(b, 29) == 0xec8726cb
    ensures Schedule(b, 30) == 0x702138a4 && Schedule(b, 31) == 0xd3b7973b
  {
    hide Schedule;
    Words0(b);
    Words16(b);
    NextWord(b, 24);
    NextWord(b, 25);
    NextWord(b, 26);
    NextWord(b, 27);
    NextWord(b, 28);
    NextWord(b, 29);
    NextWord(b, 30);
    NextWord(b, 31);
  }

  lemma Words32(b: seq<Byte>)
    requires IsBlock(b)
    ensures Schedule(b, 32) == 0x93f5997f && Schedule(b, 33) == 0x3b68ba73
    ensures Schedule(b, 34) == 0xaff4ffc1 && Schedule(b, 35) == 0xf10a5c62
    ensures Schedule(b, 36) == 0x0a8b3996 && Schedule(b, 37) == 0x72af830a
    ensures Schedule(b, 38) == 0x9409e33e && Schedule(b, 39) == 0x24641522
  {
    hide Schedule;
    Words16(b);
    Words24(b);
    NextWord(b, 32);
    NextWord(b, 33);
    NextWord(b, 34);
    NextWord(b, 35);
    NextWord(b, 36);
    NextWord(b, 37);
    NextWord(b, 38);
    NextWord(b, 39);
  }

  lemma Words40(b: seq<Byte>)
    requires IsBlock(b)
    ensures Schedule(b, 40) == 0x9f47bf94 && Schedule(b, 41) == 0xf0a64f5a
    ensures Schedule(b, 42) == 0x3e246a79 && Schedule(b, 43) == 0x27333ba3
    ensures Schedule(b, 44) == 0x0c4763f2 && Schedule(b, 45) == 0x840abf27
    ensures Schedule(b, 46) == 0x7a290d5d && Schedule(b, 47) == 0x065c43da
  {
    hide Schedule;
    Words24(b);
    Words32(b);
    NextWord(b, 40);
    NextWord(b, 41);
    NextWord(b, 42);
    NextWord(b, 43);
    NextWord(b, 44);
    NextWord(b, 45);
    NextWord(b, 46);
    NextWord(b, 47);
  }

  lemma Words48(b: seq<Byte>)
    requires IsBlock(b)
    ensures Schedule(b, 48) == 0xfb3e89cb && Schedule(b, 49) == 0xcc7617db
    ensures Schedule(b, 50) == 0xb9e66c34 && Schedule(b, 51) == 0xa9993667
    ensures Schedule(b, 52) == 0x84badedd && Schedule(b, 53) == 0xc21462bc
    ensures Schedule(b, 54) == 0x1487472c && Schedule(b, 55) == 0xb20f7a99
  {
    hide Schedule;
    Words32(b);
    Words40(b);
    NextWord(b, 48);
    NextWord(b, 49);
    NextWord(b, 50);
    NextWord(b, 51);
    NextWord(b, 52);
    NextWord(b, 53);
    NextWord(b, 54);
    NextWord(b, 55);
  }

  lemma Words56(b: seq<Byte>)
    requires IsBlock(b)
    ensures Schedule(b, 56) == 0xef57b9cd && Schedule(b, 57) == 0xebe6b238
    ensures Schedule(b, 58) == 0x9fe3095e && Schedule(b, 59) == 0x78bc8d4b
    ensures Schedule(b, 60) == 0xa43fcf15 && Schedule(b, 61) == 0x668b2ff8
    ensures Schedule(b, 62) == 0xeeaba2cc && Schedule(b, 63) == 0x12b1edeb
  {
    hide Schedule;
    Words40(b);
    Words48(b);
    NextWord(b, 56);
    NextWord(b, 57);
    NextWord(b, 58);
    NextWord(b, 59);
    NextWord(b, 60);
    NextWord(b, 61);
    NextWord(b, 62);
    NextWord(b, 63);
  }

  // ---- The rounds ----

  /** The working variables after t rounds. */
  ghost predicate After(b: seq<Byte>, t: nat, v: Working) {
    |b| == 64 && t <= 64 && Rounds(ToWorking(INITIAL_HASH), b, t) == v
  }

  lemma NextRound(b: seq<Byte>, t: nat, v: Working, w: Word, next: Working)
    requires t < 64 && After(b, t, v) && Schedule(b, t) == w && Round(v, RoundConstant(t), w) == next
    ensures After(b, t + 1, next)
  {}

  lemma Start(b: seq<Byte>)
    requires |b| == 64
    ensures After(b, 0, Working(0x6a09e667, 0xbb67ae85, 0x3c6ef372, 0xa54ff53a, 0x510e527f, 0x9b05688c, 0x1f83d9ab, 0x5be0cd19))
  {}

  lemma Rounds0(b: seq<Byte>)
    requires IsBlock(b)
    ensures After(b, 8, Working(0x85a07b5f, 0xe5030380, 0x2b4209f5, 0x04409a6a, 0x0c657a79, 0x9b27a401, 0x714260ad, 0x43ada245))
  {
    hide Schedule, Rounds, After;
    Words0(b);
    Start(b);
    var v0 := Working(0x6a09e667, 0xbb67ae85, 0x3c6ef372, 0xa54ff53a, 0x510e527f, 0x9b05688c, 0x1f83d9ab, 0x5be0cd19);
    var v1 := Working(0x5d6aebcd, 0x6a09e667, 0xbb67ae85, 0x3c6ef372, 0xfa2a4622, 0x510e527f, 0x9b05688c, 0x1f83d9ab);
    NextRound(b, 0, v0, 0x61626380, v1);
    var v2 := Working(0x5a6ad9ad, 0x5d6aebcd, 0x6a09e667, 0xbb67ae85, 0x78ce7989, 0xfa2a4622, 0x510e527f, 0x9b05688c);
    NextRound(b, 1, v1, 0x00000000, v2);
    var v3 := Working(0xc8c347a7, 0x5a6ad9ad, 0x5d6aebcd, 0x6a09e667, 0xf92939eb, 0x78ce7989, 0xfa2a4622, 0x510e527f);
    NextRound(b, 2, v2, 0x00000000, v3);
    var v4 := Working(0xd550f666, 0xc8c347a7, 0x5a6ad9ad, 0x5d6aebcd, 0x24e00850, 0xf92939eb, 0x78ce7989, 0xfa2a4622);
    NextRound(b, 3, v3, 0x00000000, v4);
    var v5 := Working(0x04409a6a, 0xd550f666, 0xc8c347a7, 0x5a6ad9ad, 0x43ada245, 0x24e00850, 0xf92939eb, 0x78ce7989);
    NextRound(b, 4, v4, 0x00000000, v5);
    var v6 := Working(0x2b4209f5, 0x04409a6a, 0xd550f666, 0xc8c347a7, 0x714260ad, 0x43ada245, 0x24e00850, 0xf92939eb);
    NextRound(b, 5, v5, 0x00000000, v6);
    var v7 := Working(0xe5030380, 0x2b4209f5, 0x04409a6a, 0xd550f666, 0x9b27a401, 0x714260ad, 0x43ada245, 0x24e00850);
    NextRound(b, 6, v6, 0x00000000, v7);
    var v8 := Working(0x85a07b5f, 0xe5030380, 0x2b4209f5, 0x04409a6a, 0x0c657a79, 0x9b27a401, 0x714260ad, 0x43ada245);
    NextRound(b, 7, v7, 0x00000000, v8);
  }

  lemma Rounds8(b: seq<Byte>)
    requires IsBlock(b)
    ensures After(b, 16, Working(0xb0fa238e, 0xc0645fde, 0xd932eb16, 0x87912990, 0x07590dcd, 0x0b92f20c, 0x745a48de, 0x1e578218))
  {
    hide Schedule, Rounds, After;
    Words0(b);
    Rounds0(b);
    var v8 := Working(0x85a07b5f, 0xe5030380, 0x2b4209f5, 0x04409a6a, 0x0c657a79, 0x9b27a401, 0x714260ad, 0x43ada245);
    var v9 := Working(0x8e04ecb9, 0x85a07b5f, 0xe5030380, 0x2b4209f5, 0x32ca2d8c, 0x0c657a79, 0x9b27a401, 0x714260ad);
    NextRound(b, 8, v8, 0x00000000, v9);
    var v10 := Working(0x8c87346b, 0x8e04ecb9, 0x85a07b5f, 0xe5030380, 0x1cc92596, 0x32ca2d8c, 0x0c657a79, 0x9b27a401);
    NextRound(b, 9, v9, 0x00000000, v10);
    var v11 := Working(0x4798a3f4, 0x8c87346b, 0x8e04ecb9, 0x85a07b5f, 0x436b23e8, 0x1cc92596, 0x32ca2d8c, 0x0c657a79);
    NextRound(b, 10, v10, 0x00000000, v11);
    var v12 := Working(0xf71fc5a9, 0x4798a3f4, 0x8c87346b, 0x8e04ecb9, 0x816fd6e9, 0x436b23e8, 0x1cc92596, 0x32ca2d8c);
    NextRound(b, 11, v11, 0x00000000, v12);
    var v13 := Working(0x87912990, 0xf71fc5a9, 0x4798a3f4, 0x8c87346b, 0x1e578218, 0x816fd6e9, 0x436b23e8, 0x1cc92596);
    NextRound(b, 12, v12, 0x00000000, v13);
    var v14 := Working(0xd932eb16, 0x87912990, 0xf71fc5a9, 0x4798a3f4, 0x745a48de, 0x1e578218, 0x816fd6e9, 0x436b23e8);
    NextRound(b, 13, v13, 0x00000000, v14);
    var v15 := Working(0xc0645fde, 0xd932eb16, 0x87912990, 0xf71fc5a9, 0x0b92f20c, 0x745a48de, 0x1e578218, 0x816fd6e9);
    NextRound(b, 14, v14, 0x00000000, v15);
    var v16 := Working(0xb0fa238e, 0xc0645fde, 0xd932eb16, 0x87912990, 0x07590dcd, 0x0b92f20c, 0x745a48de, 0x1e578218);
    NextRound(b, 15, v15, 0x00000018, v16);
  }

  lemma Rounds16(b: seq<Byte>)
    requires IsBlock(b)
    ensures After(b, 24, Working(0xc5d53d8d, 0xa7a3623f, 0xc2606d6d, 0x9dc68b63, 0xaa47c347, 0x49f5114a, 0xe1257970, 0x8ada8930))
  {
    hide Schedule, Rounds, After;
    Words16(b);
    Rounds8(b);
    var v16 := Working(0xb0fa238e, 0xc0645fde, 0xd932eb16, 0x87912990, 0x07590dcd, 0x0b92f20c, 0x745a48de, 0x1e578218);
    var v17 := Working(0x21da9a9b, 0xb0fa238e, 0xc0645fde, 0xd932eb16, 0x8034229c, 0x07590dcd, 0x0b92f20c, 0x745a48de);
    NextRound(b, 16, v16, 0x61626380, v17);
    var v18 := Working(0xc2fbd9d1, 0x21da9a9b, 0xb0fa238e, 0xc0645fde, 0x846ee454, 0x8034229c, 0x07590dcd, 0x0b92f20c);
    NextRound(b, 17, v17, 0x000f0000, v18);
    var v19 := Working(0xfe777bbf, 0xc2fbd9d1, 0x21da9a9b, 0xb0fa238e, 0xcc899961, 0x846ee454, 0x8034229c, 0x07590dcd);
    NextRound(b, 18, v18, 0x7da86405, v19);
    var v20 := Working(0xe1f20c33, 0xfe777bbf, 0xc2fbd9d1, 0x21da9a9b, 0xb0638179, 0xcc899961, 0x846ee454, 0x8034229c);
    NextRound(b, 19, v19, 0x600003c6, v20);
    var v21 := Working(0x9dc68b63, 0xe1f20c33, 0xfe777bbf, 0xc2fbd9d1, 0x8ada8930, 0xb0638179, 0xcc899961, 0x846ee454);
    NextRound(b, 20, v20, 0x3e9d7b78, v21);
    var v22 := Working(0xc2606d6d, 0x9dc68b63, 0xe1f20c33, 0xfe777bbf, 0xe1257970, 0x8ada8930, 0xb0638179, 0xcc899961);
    NextRound(b, 21, v21, 0x0183fc00, v22);
    var v23 := Working(0xa7a3623f, 0xc2606d6d, 0x9dc68b63, 0xe1f20c33, 0x49f5114a, 0xe1257970, 0x8ada8930, 0xb0638179);
    NextRound(b, 22, v22, 0x12dcbfdb, v23);
    var v24 := Working(0xc5d53d8d, 0xa7a3623f, 0xc2606d6d, 0x9dc68b63, 0xaa47c347, 0x49f5114a, 0xe1257970, 0x8ada8930);
    NextRound(b, 23, v23, 0xe2e2c38e, v24);
  }

  lemma Rounds24(b: seq<Byte>)
    requires IsBlock(b)
    ensures After(b, 32, Working(0x73b33bf5, 0xea992a22, 0xa0060b30, 0x363482c9, 0xba591112, 0x0109ab3a, 0xade79437, 0x6112a3b7))
  {
    hide Schedule, Rounds, After;
    Words24(b);
    Rounds16(b);
    var v24 := Working(0xc5d53d8d, 0xa7a3623f, 0xc2606d6d, 0x9dc68b63, 0xaa47c347, 0x49f5114a, 0xe1257970, 0x8ada8930);
    var v25 := Working(0x1c2c2838, 0xc5d53d8d, 0xa7a3623f, 0xc2606d6d, 0x2823ef91, 0xaa47c347, 0x49f5114a, 0xe1257970);
    NextRound(b, 24, v24, 0xc8215c1a, v25);
    var v26 := Working(0xcde8037d, 0x1c2c2838, 0xc5d53d8d, 0xa7a3623f, 0x14383d8e, 0x2823ef91, 0xaa47c347, 0x49f5114a);
    NextRound(b, 25, v25, 0xb73679a2, v26);
    var v27 := Working(0xb62ec4bc, 0xcde8037d, 0x1c2c2838, 0xc5d53d8d, 0xc74c6516, 0x14383d8e, 0x2823ef91, 0xaa47c347);
    NextRound(b, 26, v26, 0xe5bc3909, v27);
    var v28 := Working(0x77d37528, 0xb62ec4bc, 0xcde8037d, 0x1c2c2838, 0xedffbff8, 0xc74c6516, 0x14383d8e, 0x2823ef91);
    NextRound(b, 27, v27, 0x32663c5b, v28);
    var v29 := Working(0x363482c9, 0x77d37528, 0xb62ec4bc, 0xcde8037d, 0x6112a3b7, 0xedffbff8, 0xc74c6516, 0x14383d8e);
    NextRound(b, 28, v28, 0x9d209d67, v29);
    var v30 := Working(0xa0060b30, 0x363482c9, 0x77d37528, 0xb62ec4bc, 0xade79437, 0x6112a3b7, 0xedffbff8, 0xc74c6516);
    NextRound(b, 29, v29, 0xec8726cb, v30);
    var v31 := Working(0xea992a22, 0xa0060b30, 0x363482c9, 0x77d37528, 0x0109ab3a, 0xade79437, 0x6112a3b7, 0xedffbff8);
    NextRound(b, 30, v30, 0x702138a4, v31);
    var v32 := Working(0x73b33bf5, 0xea992a22, 0xa0060b30, 0x363482c9, 0xba591112, 0x0109ab3a, 0xade79437, 0x6112a3b7);
    NextRound(b, 31, v31, 0xd3b7973b, v32);
  }

  lemma Rounds32(b: seq<Byte>)
    requires IsBlock(b)
    ensures After(b, 40, Working(0x79ea687a, 0x6dc57a8a, 0x34df1604, 0x41a65cb1, 0x1efbc0a0, 0xf0781bc8, 0xa507a53d, 0x0772a26b))
  {
    hide Schedule, Rounds, After;
    Words32(b);
    Rounds24(b);
    var v32 := Working(0x73b33bf5, 0xea992a22, 0xa0060b30, 0x363482c9, 0xba591112, 0x0109ab3a, 0xade79437, 0x6112a3b7);
    var v33 := Working(0x98e12507, 0x73b33bf5, 0xea992a22, 0xa0060b30, 0x9cd9f5f6, 0xba591112, 0x0109ab3a, 0xade79437);
    NextRound(b, 32, v32, 0x93f5997f, v33);
    var v34 := Working(0xfe604df5, 0x98e12507, 0x73b33bf5, 0xea992a22, 0x59249dd3, 0x9cd9f5f6, 0xba591112, 0x0109ab3a);
    NextRound(b, 33, v33, 0x3b68ba73, v34);
    var v35 := Working(0xa9a7738c, 0xfe604df5, 0x98e12507, 0x73b33bf5, 0x085f3833, 0x59249dd3, 0x9cd9f5f6, 0xba591112);
    NextRound(b, 34, v34, 0xaff4ffc1, v35);
    var v36 := Working(0x65a0cfe4, 0xa9a7738c, 0xfe604df5, 0x98e12507, 0xf4b002d6, 0x085f3833, 0x59249dd3, 0x9cd9f5f6);
    NextRound(b, 35, v35, 0xf10a5c62, v36);
    var v37 := Working(0x41a65cb1, 0x65a0cfe4, 0xa9a7738c, 0xfe604df5, 0x0772a26b, 0xf4b002d6, 0x085f3833, 0x59249dd3);
    NextRound(b, 36, v36, 0x0a8b3996, v37);
    var v38 := Working(0x34df1604, 0x41a65cb1, 0x65a0cfe4, 0xa9a7738c, 0xa507a53d, 0x0772a26b, 0xf4b002d6, 0x085f3833);
    NextRound(b, 37, v37, 0x72af830a, v38);
    var v39 := Working(0x6dc57a8a, 0x34df1604, 0x41a65cb1, 0x65a0cfe4, 0xf0781bc8, 0xa507a53d, 0x0772a26b, 0xf4b002d6);
    NextRound(b, 38, v38, 0x9409e33e, v39);
    var v40 := Working(0x79ea687a, 0x6dc57a8a, 0x34df1604, 0x41a65cb1, 0x1efbc0a0, 0xf0781bc8, 0xa507a53d, 0x0772a26b);
    NextRound(b, 39, v39, 0x24641522, v40);
  }

  lemma Rounds40(b: seq<Byte>)
    requires IsBlock(b)
    ensures After(b, 48, Working(0x4172328d, 0xa14c14b0, 0x72ab4b91, 0x26628815, 0xfecf0bc6, 0xd57b94a9, 0xb7755da1, 0xa80f11f0))
  {
    hide Schedule, Rounds, After;
    Words40(b);
    Rounds32(b);
    var v40 := Working(0x79ea687a, 0x6dc57a8a, 0x34df1604, 0x41a65cb1, 0x1efbc0a0, 0xf0781bc8, 0xa507a53d, 0x0772a26b);
    var v41 := Working(0xd6670766, 0x79ea687a, 0x6dc57a8a, 0x34df1604, 0x26352d63, 0x1efbc0a0, 0xf0781bc8, 0xa507a53d);
    NextRound(b, 40, v40, 0x9f47bf94, v41);
    var v42 := Working(0xdf46652f, 0xd6670766, 0x79ea687a, 0x6dc57a8a, 0x838b2711, 0x26352d63, 0x1efbc0a0, 0xf0781bc8);
    NextRound(b, 41, v41, 0xf0a64f5a, v42);
    var v43 := Working(0x17aa0dfe, 0xdf46652f, 0xd6670766, 0x79ea687a, 0xdecd4715, 0x838b2711, 0x26352d63, 0x1efbc0a0);
    NextRound(b, 42, v42, 0x3e246a79, v43);
    var v44 := Working(0x9d4baf93, 0x17aa0dfe, 0xdf46652f, 0xd6670766, 0xfda24c2e, 0xdecd4715, 0x838b2711, 0x26352d63);
    NextRound(b, 43, v43, 0x27333ba3, v44);
    var v45 := Working(0x26628815, 0x9d4baf93, 0x17aa0dfe, 0xdf46652f, 0xa80f11f0, 0xfda24c2e, 0xdecd4715, 0x838b2711);
    NextRound(b, 44, v44, 0x0c4763f2, v45);
    var v46 := Working(0x72ab4b91, 0x26628815, 0x9d4baf93, 0x17aa0dfe, 0xb7755da1, 0xa80f11f0, 0xfda24c2e, 0xdecd4715);
    NextRound(b, 45, v45, 0x840abf27, v46);
    var v47 := Working(0xa14c14b0, 0x72ab4b91, 0x26628815, 0x9d4baf93, 0xd57b94a9, 0xb7755da1, 0xa80f11f0, 0xfda24c2e);
    NextRound(b, 46, v46, 0x7a290d5d, v47);
    var v48 := Working(0x4172328d, 0xa14c14b0, 0x72ab4b91, 0x26628815, 0xfecf0bc6, 0xd57b94a9, 0xb7755da1, 0xa80f11f0);
    NextRound(b, 47, v47, 0x065c43da, v48);
  }

  lemma Rounds48(b: seq<Byte>)
    requires IsBlock(b)
    ensures After(b, 56, Working(0x38cc9913, 0x3ec45cdb, 0xf5702fdb, 0x101fd28f, 0x54cb266b, 0xe50e1b4f, 0x9f4787c3, 0x529e7d00))
  {
    hide Schedule, Rounds, After;
    Words48(b);
    Rounds40(b);
    var v48 := Working(0x4172328d, 0xa14c14b0, 0x72ab4b91, 0x26628815, 0xfecf0bc6, 0xd57b94a9, 0xb7755da1, 0xa80f11f0);
    var v49 := Working(0x05757ceb, 0x4172328d, 0xa14c14b0, 0x72ab4b91, 0xbd714038, 0xfecf0bc6, 0xd57b94a9, 0xb7755da1);
    NextRound(b, 48, v48, 0xfb3e89cb, v49);
    var v50 := Working(0xf11bfaa8, 0x05757ceb, 0x4172328d, 0xa14c14b0, 0x6e5c390c, 0xbd714038, 0xfecf0bc6, 0xd57b94a9);
    NextRound(b, 49, v49, 0xcc7617db, v50);
    var v51 := Working(0x7a0508a1, 0xf11bfaa8, 0x05757ceb, 0x4172328d, 0x52f1ccf7, 0x6e5c390c, 0xbd714038, 0xfecf0bc6);
    NextRound(b, 50, v50, 0xb9e66c34, v51);
    var v52 := Working(0x886e7a22, 0x7a0508a1, 0xf11bfaa8, 0x05757ceb, 0x49231c1e, 0x52f1ccf7, 0x6e5c390c, 0xbd714038);
    NextRound(b, 51, v51, 0xa9993667, v52);
    var v53 := Working(0x101fd28f, 0x886e7a22, 0x7a0508a1, 0xf11bfaa8, 0x529e7d00, 0x49231c1e, 0x52f1ccf7, 0x6e5c390c);
    NextRound(b, 52, v52, 0x84badedd, v53);
    var v54 := Working(0xf5702fdb, 0x101fd28f, 0x886e7a22, 0x7a0508a1, 0x9f4787c3, 0x529e7d00, 0x49231c1e, 0x52f1ccf7);
    NextRound(b, 53, v53, 0xc21462bc, v54);
    var v55 := Working(0x3ec45cdb, 0xf5702fdb, 0x101fd28f, 0x886e7a22, 0xe50e1b4f, 0x9f4787c3, 0x529e7d00, 0x49231c1e);
    NextRound(b, 54, v54, 0x1487472c, v55);
    var v56 := Working(0x38cc9913, 0x3ec45cdb, 0xf5702fdb, 0x101fd28f, 0x54cb266b, 0xe50e1b4f, 0x9f4787c3, 0x529e7d00);
    NextRound(b, 55, v55, 0xb20f7a99, v56);
  }

  lemma Rounds56(b: seq<Byte>)
    requires IsBlock(b)
    ensures After(b, 64, Working(0x506e3058, 0xd39a2165, 0x04d24d6c, 0xb85e2ce9, 0x5ef50f24, 0xfb121210, 0x948d25b6, 0x961f4894))
  {
    hide Schedule, Rounds, After;
    Words56(b);
    Rounds48(b);
    var v56 := Working(0x38cc9913, 0x3ec45cdb, 0xf5702fdb, 0x101fd28f, 0x54cb266b, 0xe50e1b4f, 0x9f4787c3, 0x529e7d00);
    var v57 := Working(0xfcd1887b, 0x38cc9913, 0x3ec45cdb, 0xf5702fdb, 0x9b5e906c, 0x54cb266b, 0xe50e1b4f, 0x9f4787c3);
    NextRound(b, 56, v56, 0xef57b9cd, v57);
    var v58 := Working(0xc062d46f, 0xfcd1887b, 0x38cc9913, 0x3ec45cdb, 0x7e44008e, 0x9b5e906c, 0x54cb266b, 0xe50e1b4f);
    NextRound(b, 57, v57, 0xebe6b238, v58);
    var v59 := Working(0xffb70472, 0xc062d46f, 0xfcd1887b, 0x38cc9913, 0x6d83bfc6, 0x7e44008e, 0x9b5e906c, 0x54cb266b);
    NextRound(b, 58, v58, 0x9fe3095e, v59);
    var v60 := Working(0xb6ae8fff, 0xffb70472, 0xc062d46f, 0xfcd1887b, 0xb21bad3d, 0x6d83bfc6, 0x7e44008e, 0x9b5e906c);
    NextRound(b, 59, v59, 0x78bc8d4b, v60);
    var v61 := Working(0xb85e2ce9, 0xb6ae8fff, 0xffb70472, 0xc062d46f, 0x961f4894, 0xb21bad3d, 0x6d83bfc6, 0x7e44008e);
    NextRound(b, 60, v60, 0xa43fcf15, v61);
    var v62 := Working(0x04d24d6c, 0xb85e2ce9, 0xb6ae8fff, 0xffb70472, 0x948d25b6, 0x961f4894, 0xb21bad3d, 0x6d83bfc6);
    NextRound(b, 61, v61, 0x668b2ff8, v62);
    var v63 := Working(0xd39a2165, 0x04d24d6c, 0xb85e2ce9, 0xb6ae8fff, 0xfb121210, 0x948d25b6, 0x961f4894, 0xb21bad3d);
    NextRound(b, 62, v62, 0xeeaba2cc, v63);
    var v64 := Working(0x506e3058, 0xd39a2165, 0x04d24d6c, 0xb85e2ce9, 0x5ef50f24, 0xfb121210, 0x948d25b6, 0x961f4894);
    NextRound(b, 63, v63, 0x12b1edeb, v64);
  }

  // ---- The digest ----

  lemma HashValueOfAbc()
    ensures Hashable(ABC)
    ensures HashBlocks(INITIAL_HASH, Pad(ABC)) == [
              0xba7816bf, 0x8f01cfea, 0x414140de, 0x5dae2223, 0xb00361a3, 0x96177a9c, 0xb410ff61, 0xf20015ad]
  {
    hide Rounds;
    Block();
    var b := Pad(ABC);
    Rounds56(b);
    assert b[..64] == b && b[64..] == [];
    assert HashBlocks(INITIAL_HASH, b) == HashBlocks(Compress(INITIAL_HASH, b), []);
  }

  /** The published digest of "abc". */
  lemma DigestOfAbc()
    ensures Hashable(ABC)
    ensures Digest(ABC) == WordsToBytes([
              0xba7816bf, 0x8f01cfea, 0x414140de, 0x5dae2223, 0xb00361a3, 0x96177a9c, 0xb410ff61, 0xf20015ad])
  {
    hide HashBlocks, Pad, WordsToBytes;
    HashValueOfAbc();
  }
}
