/** The one-block example that the authors of SHA-256 publish: the message "abc", word by word and round
    by round. It fixes what is left open by properties that hold of every message, such as the order of
    words, rounds and bytes. */
module Sha256Example {
  import opened Sha256Model

  const ABC: seq<Byte> := [0x61, 0x62, 0x63]

  function AbcBlock(): Chunk {
    ABC + ([0x80] + Zeros(52) + (Zeros(7) + [24]))
  }

  /** Word t of the message schedule. */
  ghost predicate WordIs(m: Chunk, t: nat, w: Word) {
    t < 64 && Schedule(m, t) == w
  }

  /** The working variables after t rounds. */
  ghost predicate StateIs(m: Chunk, t: nat, s: State) {
    t <= 64 && Rounds(H0, m, t) == s
  }

  lemma Given(m: Chunk, t: nat, b0: Byte, b1: Byte, b2: Byte, b3: Byte, w: Word)
    requires t < 16 && m[4 * t] == b0 && m[4 * t + 1] == b1 && m[4 * t + 2] == b2 && m[4 * t + 3] == b3
    requires w == BigEndian(b0, b1, b2, b3)
    ensures WordIs(m, t, w)
  {
    hide BigEndian;
  }

  lemma Extended(m: Chunk, t: nat, w2: Word, w7: Word, w15: Word, w16: Word, w: Word)
    requires 16 <= t < 64 && Sum4(SmallSigma1(w2), w7, SmallSigma0(w15), w16) == w
    requires WordIs(m, t - 2, w2) && WordIs(m, t - 7, w7) && WordIs(m, t - 15, w15) && WordIs(m, t - 16, w16)
    ensures WordIs(m, t, w)
  {
    hide Sum4, SmallSigma0, SmallSigma1;
  }

  lemma Stepped(m: Chunk, t: nat, k: Word, w: Word, s: State, s': State)
    requires t < 64 && K[t] == k && WordIs(m, t, w) && StateIs(m, t, s) && Round(s, k, w) == s'
    ensures StateIs(m, t + 1, s')
  {
    hide K, Schedule, H0, Round;
  }

  lemma GivenWords()
    ensures BigEndian(97, 98, 99, 128) == 0x61626380 && BigEndian(0, 0, 0, 0) == 0 && BigEndian(0, 0, 0, 24) == 24
  {
  }

  lemma Given0(m: Chunk)
    requires m == AbcBlock()
    ensures WordIs(m, 0, 0x61626380) && WordIs(m, 1, 0x00000000)
            && WordIs(m, 2, 0x00000000) && WordIs(m, 3, 0x00000000)
  {
    hide WordIs, BigEndian;
    GivenWords();
    Given(m, 0, 97, 98, 99, 128, 0x61626380);
    Given(m, 1, 0, 0, 0, 0, 0x00000000);
    Given(m, 2, 0, 0, 0, 0, 0x00000000);
    Given(m, 3, 0, 0, 0, 0, 0x00000000);
  }

  lemma Given4(m: Chunk)
    requires m == AbcBlock()
    ensures WordIs(m, 4, 0x00000000) && WordIs(m, 5, 0x00000000)
            && WordIs(m, 6, 0x00000000) && WordIs(m, 7, 0x00000000)
  {
    hide WordIs, BigEndian;
    GivenWords();
    Given(m, 4, 0, 0, 0, 0, 0x00000000);
    Given(m, 5, 0, 0, 0, 0, 0x00000000);
    Given(m, 6, 0, 0, 0, 0, 0x00000000);
    Given(m, 7, 0, 0, 0, 0, 0x00000000);
  }

  lemma Given8(m: Chunk)
    requires m == AbcBlock()
    ensures WordIs(m, 8, 0x00000000) && WordIs(m, 9, 0x00000000)
            && WordIs(m, 10, 0x00000000) && WordIs(m, 11, 0x00000000)
  {
    hide WordIs, BigEndian;
    GivenWords();
    Given(m, 8, 0, 0, 0, 0, 0x00000000);
    Given(m, 9, 0, 0, 0, 0, 0x00000000);
    Given(m, 10, 0, 0, 0, 0, 0x00000000);
    Given(m, 11, 0, 0, 0, 0, 0x00000000);
  }

  lemma Given12(m: Chunk)
    requires m == AbcBlock()
    ensures WordIs(m, 12, 0x00000000) && WordIs(m, 13, 0x00000000)
            && WordIs(m, 14, 0x00000000) && WordIs(m, 15, 0x00000018)
  {
    hide WordIs, BigEndian;
    GivenWords();
    Given(m, 12, 0, 0, 0, 0, 0x00000000);
    Given(m, 13, 0, 0, 0, 0, 0x00000000);
    Given(m, 14, 0, 0, 0, 0, 0x00000000);
    Given(m, 15, 0, 0, 0, 24, 0x00000018);
  }

  lemma Words0(m: Chunk)
    requires m == AbcBlock()
    ensures WordIs(m, 0, 0x61626380) && WordIs(m, 1, 0x00000000)
            && WordIs(m, 2, 0x00000000) && WordIs(m, 3, 0x00000000)
    ensures WordIs(m, 4, 0x00000000) && WordIs(m, 5, 0x00000000)
            && WordIs(m, 6, 0x00000000) && WordIs(m, 7, 0x00000000)
    ensures WordIs(m, 8, 0x00000000) && WordIs(m, 9, 0x00000000)
            && WordIs(m, 10, 0x00000000) && WordIs(m, 11, 0x00000000)
    ensures WordIs(m, 12, 0x00000000) && WordIs(m, 13, 0x00000000)
            && WordIs(m, 14, 0x00000000) && WordIs(m, 15, 0x00000018)
  {
    hide WordIs, AbcBlock;
    Given0(m);
    Given4(m);
    Given8(m);
    Given12(m);
  }

  lemma Words16(m: Chunk)
    requires m == AbcBlock()
    ensures WordIs(m, 16, 0x61626380) && WordIs(m, 17, 0x000f0000)
            && WordIs(m, 18, 0x7da86405) && WordIs(m, 19, 0x600003c6)
    ensures WordIs(m, 20, 0x3e9d7b78) && WordIs(m, 21, 0x0183fc00)
            && WordIs(m, 22, 0x12dcbfdb) && WordIs(m, 23, 0xe2e2c38e)
    ensures WordIs(m, 24, 0xc8215c1a) && WordIs(m, 25, 0xb73679a2)
            && WordIs(m, 26, 0xe5bc3909) && WordIs(m, 27, 0x32663c5b)
    ensures WordIs(m, 28, 0x9d209d67) && WordIs(m, 29, 0xec8726cb)
            && WordIs(m, 30, 0x702138a4) && WordIs(m, 31, 0xd3b7973b)
  {
    hide WordIs, AbcBlock;
    Words0(m);
    Extended(m, 16, 0x00000000, 0x00000000, 0x00000000, 0x61626380, 0x61626380);
    Extended(m, 17, 0x00000018, 0x00000000, 0x00000000, 0x00000000, 0x000f0000);
    Extended(m, 18, 0x61626380, 0x00000000, 0x00000000, 0x00000000, 0x7da86405);
    Extended(m, 19, 0x000f0000, 0x00000000, 0x00000000, 0x00000000, 0x600003c6);
    Extended(m, 20, 0x7da86405, 0x00000000, 0x00000000, 0x00000000, 0x3e9d7b78);
    Extended(m, 21, 0x600003c6, 0x00000000, 0x00000000, 0x00000000, 0x0183fc00);
    Extended(m, 22, 0x3e9d7b78, 0x00000018, 0x00000000, 0x00000000, 0x12dcbfdb);
    Extended(m, 23, 0x0183fc00, 0x61626380, 0x00000000, 0x00000000, 0xe2e2c38e);
    Extended(m, 24, 0x12dcbfdb, 0x000f0000, 0x00000000, 0x00000000, 0xc8215c1a);
    Extended(m, 25, 0xe2e2c38e, 0x7da86405, 0x00000000, 0x00000000, 0xb73679a2);
    Extended(m, 26, 0xc8215c1a, 0x600003c6, 0x00000000, 0x00000000, 0xe5bc3909);
    Extended(m, 27, 0xb73679a2, 0x3e9d7b78, 0x00000000, 0x00000000, 0x32663c5b);
    Extended(m, 28, 0xe5bc3909, 0x0183fc00, 0x00000000, 0x00000000, 0x9d209d67);
    Extended(m, 29, 0x32663c5b, 0x12dcbfdb, 0x00000000, 0x00000000, 0xec8726cb);
    Extended(m, 30, 0x9d209d67, 0xe2e2c38e, 0x00000018, 0x00000000, 0x702138a4);
    Extended(m, 31, 0xec8726cb, 0xc8215c1a, 0x61626380, 0x00000018, 0xd3b7973b);
  }

  lemma Words32(m: Chunk)
    requires m == AbcBlock()
    ensures WordIs(m, 32, 0x93f5997f) && WordIs(m, 33, 0x3b68ba73)
            && WordIs(m, 34, 0xaff4ffc1) && WordIs(m, 35, 0xf10a5c62)
    ensures WordIs(m, 36, 0x0a8b3996) && WordIs(m, 37, 0x72af830a)
            && WordIs(m, 38, 0x9409e33e) && WordIs(m, 39, 0x24641522)
    ensures WordIs(m, 40, 0x9f47bf94) && WordIs(m, 41, 0xf0a64f5a)
            && WordIs(m, 42, 0x3e246a79) && WordIs(m, 43, 0x27333ba3)
    ensures WordIs(m, 44, 0x0c4763f2) && WordIs(m, 45, 0x840abf27)
            && WordIs(m, 46, 0x7a290d5d) && WordIs(m, 47, 0x065c43da)
  {
    hide WordIs, AbcBlock;
    Words16(m);
    Extended(m, 32, 0x702138a4, 0xb73679a2, 0x000f0000, 0x61626380, 0x93f5997f);
    Extended(m, 33, 0xd3b7973b, 0xe5bc3909, 0x7da86405, 0x000f0000, 0x3b68ba73);
    Extended(m, 34, 0x93f5997f, 0x32663c5b, 0x600003c6, 0x7da86405, 0xaff4ffc1);
    Extended(m, 35, 0x3b68ba73, 0x9d209d67, 0x3e9d7b78, 0x600003c6, 0xf10a5c62);
    Extended(m, 36, 0xaff4ffc1, 0xec8726cb, 0x0183fc00, 0x3e9d7b78, 0x0a8b3996);
    Extended(m, 37, 0xf10a5c62, 0x702138a4, 0x12dcbfdb, 0x0183fc00, 0x72af830a);
    Extended(m, 38, 0x0a8b3996, 0xd3b7973b, 0xe2e2c38e, 0x12dcbfdb, 0x9409e33e);
    Extended(m, 39, 0x72af830a, 0x93f5997f, 0xc8215c1a, 0xe2e2c38e, 0x24641522);
    Extended(m, 40, 0x9409e33e, 0x3b68ba73, 0xb73679a2, 0xc8215c1a, 0x9f47bf94);
    Extended(m, 41, 0x24641522, 0xaff4ffc1, 0xe5bc3909, 0xb73679a2, 0xf0a64f5a);
    Extended(m, 42, 0x9f47bf94, 0xf10a5c62, 0x32663c5b, 0xe5bc3909, 0x3e246a79);
    Extended(m, 43, 0xf0a64f5a, 0x0a8b3996, 0x9d209d67, 0x32663c5b, 0x27333ba3);
    Extended(m, 44, 0x3e246a79, 0x72af830a, 0xec8726cb, 0x9d209d67, 0x0c4763f2);
    Extended(m, 45, 0x27333ba3, 0x9409e33e, 0x702138a4, 0xec8726cb, 0x840abf27);
    Extended(m, 46, 0x0c4763f2, 0x24641522, 0xd3b7973b, 0x702138a4, 0x7a290d5d);
    Extended(m, 47, 0x840abf27, 0x9f47bf94, 0x93f5997f, 0xd3b7973b, 0x065c43da);
  }

  lemma Words48(m: Chunk)
    requires m == AbcBlock()
    ensures WordIs(m, 48, 0xfb3e89cb) && WordIs(m, 49, 0xcc7617db)
            && WordIs(m, 50, 0xb9e66c34) && WordIs(m, 51, 0xa9993667)
    ensures WordIs(m, 52, 0x84badedd) && WordIs(m, 53, 0xc21462bc)
            && WordIs(m, 54, 0x1487472c) && WordIs(m, 55, 0xb20f7a99)
    ensures WordIs(m, 56, 0xef57b9cd) && WordIs(m, 57, 0xebe6b238)
            && WordIs(m, 58, 0x9fe3095e) && WordIs(m, 59, 0x78bc8d4b)
    ensures WordIs(m, 60, 0xa43fcf15) && WordIs(m, 61, 0x668b2ff8)
            && WordIs(m, 62, 0xeeaba2cc) && WordIs(m, 63, 0x12b1edeb)
  {
    hide WordIs, AbcBlock;
    Words32(m);
    Extended(m, 48, 0x7a290d5d, 0xf0a64f5a, 0x3b68ba73, 0x93f5997f, 0xfb3e89cb);
    Extended(m, 49, 0x065c43da, 0x3e246a79, 0xaff4ffc1, 0x3b68ba73, 0xcc7617db);
    Extended(m, 50, 0xfb3e89cb, 0x27333ba3, 0xf10a5c62, 0xaff4ffc1, 0xb9e66c34);
    Extended(m, 51, 0xcc7617db, 0x0c4763f2, 0x0a8b3996, 0xf10a5c62, 0xa9993667);
    Extended(m, 52, 0xb9e66c34, 0x840abf27, 0x72af830a, 0x0a8b3996, 0x84badedd);
    Extended(m, 53, 0xa9993667, 0x7a290d5d, 0x9409e33e, 0x72af830a, 0xc21462bc);
    Extended(m, 54, 0x84badedd, 0x065c43da, 0x24641522, 0x9409e33e, 0x1487472c);
    Extended(m, 55, 0xc21462bc, 0xfb3e89cb, 0x9f47bf94, 0x24641522, 0xb20f7a99);
    Extended(m, 56, 0x1487472c, 0xcc7617db, 0xf0a64f5a, 0x9f47bf94, 0xef57b9cd);
    Extended(m, 57, 0xb20f7a99, 0xb9e66c34, 0x3e246a79, 0xf0a64f5a, 0xebe6b238);
    Extended(m, 58, 0xef57b9cd, 0xa9993667, 0x27333ba3, 0x3e246a79, 0x9fe3095e);
    Extended(m, 59, 0xebe6b238, 0x84badedd, 0x0c4763f2, 0x27333ba3, 0x78bc8d4b);
    Extended(m, 60, 0x9fe3095e, 0xc21462bc, 0x840abf27, 0x0c4763f2, 0xa43fcf15);
    Extended(m, 61, 0x78bc8d4b, 0x1487472c, 0x7a290d5d, 0x840abf27, 0x668b2ff8);
    Extended(m, 62, 0xa43fcf15, 0xb20f7a99, 0x065c43da, 0x7a290d5d, 0xeeaba2cc);
    Extended(m, 63, 0x668b2ff8, 0xef57b9cd, 0xfb3e89cb, 0x065c43da, 0x12b1edeb);
  }

  lemma Rounds0(m: Chunk)
    requires m == AbcBlock()
    requires StateIs(m, 0,
               State(0x6a09e667, 0xbb67ae85, 0x3c6ef372, 0xa54ff53a, 0x510e527f, 0x9b05688c, 0x1f83d9ab, 0x5be0cd19))
    ensures StateIs(m, 8,
              State(0x85a07b5f, 0xe5030380, 0x2b4209f5, 0x04409a6a, 0x0c657a79, 0x9b27a401, 0x714260ad, 0x43ada245))
  {
    hide StateIs, WordIs, AbcBlock;
    Words0(m);
    var s0 := State(0x6a09e667, 0xbb67ae85, 0x3c6ef372, 0xa54ff53a, 0x510e527f, 0x9b05688c, 0x1f83d9ab, 0x5be0cd19);
    var s1 := State(0x5d6aebcd, 0x6a09e667, 0xbb67ae85, 0x3c6ef372, 0xfa2a4622, 0x510e527f, 0x9b05688c, 0x1f83d9ab);
    var s2 := State(0x5a6ad9ad, 0x5d6aebcd, 0x6a09e667, 0xbb67ae85, 0x78ce7989, 0xfa2a4622, 0x510e527f, 0x9b05688c);
    var s3 := State(0xc8c347a7, 0x5a6ad9ad, 0x5d6aebcd, 0x6a09e667, 0xf92939eb, 0x78ce7989, 0xfa2a4622, 0x510e527f);
    var s4 := State(0xd550f666, 0xc8c347a7, 0x5a6ad9ad, 0x5d6aebcd, 0x24e00850, 0xf92939eb, 0x78ce7989, 0xfa2a4622);
    var s5 := State(0x04409a6a, 0xd550f666, 0xc8c347a7, 0x5a6ad9ad, 0x43ada245, 0x24e00850, 0xf92939eb, 0x78ce7989);
    var s6 := State(0x2b4209f5, 0x04409a6a, 0xd550f666, 0xc8c347a7, 0x714260ad, 0x43ada245, 0x24e00850, 0xf92939eb);
    var s7 := State(0xe5030380, 0x2b4209f5, 0x04409a6a, 0xd550f666, 0x9b27a401, 0x714260ad, 0x43ada245, 0x24e00850);
    var s8 := State(0x85a07b5f, 0xe5030380, 0x2b4209f5, 0x04409a6a, 0x0c657a79, 0x9b27a401, 0x714260ad, 0x43ada245);
    Stepped(m, 0, 0x428a2f98, 0x61626380, s0, s1);
    Stepped(m, 1, 0x71374491, 0x00000000, s1, s2);
    Stepped(m, 2, 0xb5c0fbcf, 0x00000000, s2, s3);
    Stepped(m, 3, 0xe9b5dba5, 0x00000000, s3, s4);
    Stepped(m, 4, 0x3956c25b, 0x00000000, s4, s5);
    Stepped(m, 5, 0x59f111f1, 0x00000000, s5, s6);
    Stepped(m, 6, 0x923f82a4, 0x00000000, s6, s7);
    Stepped(m, 7, 0xab1c5ed5, 0x00000000, s7, s8);
  }

  lemma Rounds8(m: Chunk)
    requires m == AbcBlock()
    requires StateIs(m, 8,
               State(0x85a07b5f, 0xe5030380, 0x2b4209f5, 0x04409a6a, 0x0c657a79, 0x9b27a401, 0x714260ad, 0x43ada245))
    ensures StateIs(m, 16,
              State(0xb0fa238e, 0xc0645fde, 0xd932eb16, 0x87912990, 0x07590dcd, 0x0b92f20c, 0x745a48de, 0x1e578218))
  {
    hide StateIs, WordIs, AbcBlock;
    Words0(m);
    var s0 := State(0x85a07b5f, 0xe5030380, 0x2b4209f5, 0x04409a6a, 0x0c657a79, 0x9b27a401, 0x714260ad, 0x43ada245);
    var s1 := State(0x8e04ecb9, 0x85a07b5f, 0xe5030380, 0x2b4209f5, 0x32ca2d8c, 0x0c657a79, 0x9b27a401, 0x714260ad);
    var s2 := State(0x8c87346b, 0x8e04ecb9, 0x85a07b5f, 0xe5030380, 0x1cc92596, 0x32ca2d8c, 0x0c657a79, 0x9b27a401);
    var s3 := State(0x4798a3f4, 0x8c87346b, 0x8e04ecb9, 0x85a07b5f, 0x436b23e8, 0x1cc92596, 0x32ca2d8c, 0x0c657a79);
    var s4 := State(0xf71fc5a9, 0x4798a3f4, 0x8c87346b, 0x8e04ecb9, 0x816fd6e9, 0x436b23e8, 0x1cc92596, 0x32ca2d8c);
    var s5 := State(0x87912990, 0xf71fc5a9, 0x4798a3f4, 0x8c87346b, 0x1e578218, 0x816fd6e9, 0x436b23e8, 0x1cc92596);
    var s6 := State(0xd932eb16, 0x87912990, 0xf71fc5a9, 0x4798a3f4, 0x745a48de, 0x1e578218, 0x816fd6e9, 0x436b23e8);
    var s7 := State(0xc0645fde, 0xd932eb16, 0x87912990, 0xf71fc5a9, 0x0b92f20c, 0x745a48de, 0x1e578218, 0x816fd6e9);
    var s8 := State(0xb0fa238e, 0xc0645fde, 0xd932eb16, 0x87912990, 0x07590dcd, 0x0b92f20c, 0x745a48de, 0x1e578218);
    Stepped(m, 8, 0xd807aa98, 0x00000000, s0, s1);
    Stepped(m, 9, 0x12835b01, 0x00000000, s1, s2);
    Stepped(m, 10, 0x243185be, 0x00000000, s2, s3);
    Stepped(m, 11, 0x550c7dc3, 0x00000000, s3, s4);
    Stepped(m, 12, 0x72be5d74, 0x00000000, s4, s5);
    Stepped(m, 13, 0x80deb1fe, 0x00000000, s5, s6);
    Stepped(m, 14, 0x9bdc06a7, 0x00000000, s6, s7);
    Stepped(m, 15, 0xc19bf174, 0x00000018, s7, s8);
  }

  lemma Rounds16(m: Chunk)
    requires m == AbcBlock()
    requires StateIs(m, 16,
               State(0xb0fa238e, 0xc0645fde, 0xd932eb16, 0x87912990, 0x07590dcd, 0x0b92f20c, 0x745a48de, 0x1e578218))
    ensures StateIs(m, 24,
              State(0xc5d53d8d, 0xa7a3623f, 0xc2606d6d, 0x9dc68b63, 0xaa47c347, 0x49f5114a, 0xe1257970, 0x8ada8930))
  {
    hide StateIs, WordIs, AbcBlock;
    Words16(m);
    var s0 := State(0xb0fa238e, 0xc0645fde, 0xd932eb16, 0x87912990, 0x07590dcd, 0x0b92f20c, 0x745a48de, 0x1e578218);
    var s1 := State(0x21da9a9b, 0xb0fa238e, 0xc0645fde, 0xd932eb16, 0x8034229c, 0x07590dcd, 0x0b92f20c, 0x745a48de);
    var s2 := State(0xc2fbd9d1, 0x21da9a9b, 0xb0fa238e, 0xc0645fde, 0x846ee454, 0x8034229c, 0x07590dcd, 0x0b92f20c);
    var s3 := State(0xfe777bbf, 0xc2fbd9d1, 0x21da9a9b, 0xb0fa238e, 0xcc899961, 0x846ee454, 0x8034229c, 0x07590dcd);
    var s4 := State(0xe1f20c33, 0xfe777bbf, 0xc2fbd9d1, 0x21da9a9b, 0xb0638179, 0xcc899961, 0x846ee454, 0x8034229c);
    var s5 := State(0x9dc68b63, 0xe1f20c33, 0xfe777bbf, 0xc2fbd9d1, 0x8ada8930, 0xb0638179, 0xcc899961, 0x846ee454);
    var s6 := State(0xc2606d6d, 0x9dc68b63, 0xe1f20c33, 0xfe777bbf, 0xe1257970, 0x8ada8930, 0xb0638179, 0xcc899961);
    var s7 := State(0xa7a3623f, 0xc2606d6d, 0x9dc68b63, 0xe1f20c33, 0x49f5114a, 0xe1257970, 0x8ada8930, 0xb0638179);
    var s8 := State(0xc5d53d8d, 0xa7a3623f, 0xc2606d6d, 0x9dc68b63, 0xaa47c347, 0x49f5114a, 0xe1257970, 0x8ada8930);
    Stepped(m, 16, 0xe49b69c1, 0x61626380, s0, s1);
    Stepped(m, 17, 0xefbe4786, 0x000f0000, s1, s2);
    Stepped(m, 18, 0x0fc19dc6, 0x7da86405, s2, s3);
    Stepped(m, 19, 0x240ca1cc, 0x600003c6, s3, s4);
    Stepped(m, 20, 0x2de92c6f, 0x3e9d7b78, s4, s5);
    Stepped(m, 21, 0x4a7484aa, 0x0183fc00, s5, s6);
    Stepped(m, 22, 0x5cb0a9dc, 0x12dcbfdb, s6, s7);
    Stepped(m, 23, 0x76f988da, 0xe2e2c38e, s7, s8);
  }

  lemma Rounds24(m: Chunk)
    requires m == AbcBlock()
    requires StateIs(m, 24,
               State(0xc5d53d8d, 0xa7a3623f, 0xc2606d6d, 0x9dc68b63, 0xaa47c347, 0x49f5114a, 0xe1257970, 0x8ada8930))
    ensures StateIs(m, 32,
              State(0x73b33bf5, 0xea992a22, 0xa0060b30, 0x363482c9, 0xba591112, 0x0109ab3a, 0xade79437, 0x6112a3b7))
  {
    hide StateIs, WordIs, AbcBlock;
    Words16(m);
    var s0 := State(0xc5d53d8d, 0xa7a3623f, 0xc2606d6d, 0x9dc68b63, 0xaa47c347, 0x49f5114a, 0xe1257970, 0x8ada8930);
    var s1 := State(0x1c2c2838, 0xc5d53d8d, 0xa7a3623f, 0xc2606d6d, 0x2823ef91, 0xaa47c347, 0x49f5114a, 0xe1257970);
    var s2 := State(0xcde8037d, 0x1c2c2838, 0xc5d53d8d, 0xa7a3623f, 0x14383d8e, 0x2823ef91, 0xaa47c347, 0x49f5114a);
    var s3 := State(0xb62ec4bc, 0xcde8037d, 0x1c2c2838, 0xc5d53d8d, 0xc74c6516, 0x14383d8e, 0x2823ef91, 0xaa47c347);
    var s4 := State(0x77d37528, 0xb62ec4bc, 0xcde8037d, 0x1c2c2838, 0xedffbff8, 0xc74c6516, 0x14383d8e, 0x2823ef91);
    var s5 := State(0x363482c9, 0x77d37528, 0xb62ec4bc, 0xcde8037d, 0x6112a3b7, 0xedffbff8, 0xc74c6516, 0x14383d8e);
    var s6 := State(0xa0060b30, 0x363482c9, 0x77d37528, 0xb62ec4bc, 0xade79437, 0x6112a3b7, 0xedffbff8, 0xc74c6516);
    var s7 := State(0xea992a22, 0xa0060b30, 0x363482c9, 0x77d37528, 0x0109ab3a, 0xade79437, 0x6112a3b7, 0xedffbff8);
    var s8 := State(0x73b33bf5, 0xea992a22, 0xa0060b30, 0x363482c9, 0xba591112, 0x0109ab3a, 0xade79437, 0x6112a3b7);
    Stepped(m, 24, 0x983e5152, 0xc8215c1a, s0, s1);
    Stepped(m, 25, 0xa831c66d, 0xb73679a2, s1, s2);
    Stepped(m, 26, 0xb00327c8, 0xe5bc3909, s2, s3);
    Stepped(m, 27, 0xbf597fc7, 0x32663c5b, s3, s4);
    Stepped(m, 28, 0xc6e00bf3, 0x9d209d67, s4, s5);
    Stepped(m, 29, 0xd5a79147, 0xec8726cb, s5, s6);
    Stepped(m, 30, 0x06ca6351, 0x702138a4, s6, s7);
    Stepped(m, 31, 0x14292967, 0xd3b7973b, s7, s8);
  }

  lemma Rounds32(m: Chunk)
    requires m == AbcBlock()
    requires StateIs(m, 32,
               State(0x73b33bf5, 0xea992a22, 0xa0060b30, 0x363482c9, 0xba591112, 0x0109ab3a, 0xade79437, 0x6112a3b7))
    ensures StateIs(m, 40,
              State(0x79ea687a, 0x6dc57a8a, 0x34df1604, 0x41a65cb1, 0x1efbc0a0, 0xf0781bc8, 0xa507a53d, 0x0772a26b))
  {
    hide StateIs, WordIs, AbcBlock;
    Words32(m);
    var s0 := State(0x73b33bf5, 0xea992a22, 0xa0060b30, 0x363482c9, 0xba591112, 0x0109ab3a, 0xade79437, 0x6112a3b7);
    var s1 := State(0x98e12507, 0x73b33bf5, 0xea992a22, 0xa0060b30, 0x9cd9f5f6, 0xba591112, 0x0109ab3a, 0xade79437);
    var s2 := State(0xfe604df5, 0x98e12507, 0x73b33bf5, 0xea992a22, 0x59249dd3, 0x9cd9f5f6, 0xba591112, 0x0109ab3a);
    var s3 := State(0xa9a7738c, 0xfe604df5, 0x98e12507, 0x73b33bf5, 0x085f3833, 0x59249dd3, 0x9cd9f5f6, 0xba591112);
    var s4 := State(0x65a0cfe4, 0xa9a7738c, 0xfe604df5, 0x98e12507, 0xf4b002d6, 0x085f3833, 0x59249dd3, 0x9cd9f5f6);
    var s5 := State(0x41a65cb1, 0x65a0cfe4, 0xa9a7738c, 0xfe604df5, 0x0772a26b, 0xf4b002d6, 0x085f3833, 0x59249dd3);
    var s6 := State(0x34df1604, 0x41a65cb1, 0x65a0cfe4, 0xa9a7738c, 0xa507a53d, 0x0772a26b, 0xf4b002d6, 0x085f3833);
    var s7 := State(0x6dc57a8a, 0x34df1604, 0x41a65cb1, 0x65a0cfe4, 0xf0781bc8, 0xa507a53d, 0x0772a26b, 0xf4b002d6);
    var s8 := State(0x79ea687a, 0x6dc57a8a, 0x34df1604, 0x41a65cb1, 0x1efbc0a0, 0xf0781bc8, 0xa507a53d, 0x0772a26b);
    Stepped(m, 32, 0x27b70a85, 0x93f5997f, s0, s1);
    Stepped(m, 33, 0x2e1b2138, 0x3b68ba73, s1, s2);
    Stepped(m, 34, 0x4d2c6dfc, 0xaff4ffc1, s2, s3);
    Stepped(m, 35, 0x53380d13, 0xf10a5c62, s3, s4);
    Stepped(m, 36, 0x650a7354, 0x0a8b3996, s4, s5);
    Stepped(m, 37, 0x766a0abb, 0x72af830a, s5, s6);
    Stepped(m, 38, 0x81c2c92e, 0x9409e33e, s6, s7);
    Stepped(m, 39, 0x92722c85, 0x24641522, s7, s8);
  }

  lemma Rounds40(m: Chunk)
    requires m == AbcBlock()
    requires StateIs(m, 40,
               State(0x79ea687a, 0x6dc57a8a, 0x34df1604, 0x41a65cb1, 0x1efbc0a0, 0xf0781bc8, 0xa507a53d, 0x0772a26b))
    ensures StateIs(m, 48,
              State(0x4172328d, 0xa14c14b0, 0x72ab4b91, 0x26628815, 0xfecf0bc6, 0xd57b94a9, 0xb7755da1, 0xa80f11f0))
  {
    hide StateIs, WordIs, AbcBlock;
    Words32(m);
    var s0 := State(0x79ea687a, 0x6dc57a8a, 0x34df1604, 0x41a65cb1, 0x1efbc0a0, 0xf0781bc8, 0xa507a53d, 0x0772a26b);
    var s1 := State(0xd6670766, 0x79ea687a, 0x6dc57a8a, 0x34df1604, 0x26352d63, 0x1efbc0a0, 0xf0781bc8, 0xa507a53d);
    var s2 := State(0xdf46652f, 0xd6670766, 0x79ea687a, 0x6dc57a8a, 0x838b2711, 0x26352d63, 0x1efbc0a0, 0xf0781bc8);
    var s3 := State(0x17aa0dfe, 0xdf46652f, 0xd6670766, 0x79ea687a, 0xdecd4715, 0x838b2711, 0x26352d63, 0x1efbc0a0);
    var s4 := State(0x9d4baf93, 0x17aa0dfe, 0xdf46652f, 0xd6670766, 0xfda24c2e, 0xdecd4715, 0x838b2711, 0x26352d63);
    var s5 := State(0x26628815, 0x9d4baf93, 0x17aa0dfe, 0xdf46652f, 0xa80f11f0, 0xfda24c2e, 0xdecd4715, 0x838b2711);
    var s6 := State(0x72ab4b91, 0x26628815, 0x9d4baf93, 0x17aa0dfe, 0xb7755da1, 0xa80f11f0, 0xfda24c2e, 0xdecd4715);
    var s7 := State(0xa14c14b0, 0x72ab4b91, 0x26628815, 0x9d4baf93, 0xd57b94a9, 0xb7755da1, 0xa80f11f0, 0xfda24c2e);
    var s8 := State(0x4172328d, 0xa14c14b0, 0x72ab4b91, 0x26628815, 0xfecf0bc6, 0xd57b94a9, 0xb7755da1, 0xa80f11f0);
    Stepped(m, 40, 0xa2bfe8a1, 0x9f47bf94, s0, s1);
    Stepped(m, 41, 0xa81a664b, 0xf0a64f5a, s1, s2);
    Stepped(m, 42, 0xc24b8b70, 0x3e246a79, s2, s3);
    Stepped(m, 43, 0xc76c51a3, 0x27333ba3, s3, s4);
    Stepped(m, 44, 0xd192e819, 0x0c4763f2, s4, s5);
    Stepped(m, 45, 0xd6990624, 0x840abf27, s5, s6);
    Stepped(m, 46, 0xf40e3585, 0x7a290d5d, s6, s7);
    Stepped(m, 47, 0x106aa070, 0x065c43da, s7, s8);
  }

  lemma Rounds48(m: Chunk)
    requires m == AbcBlock()
    requires StateIs(m, 48,
               State(0x4172328d, 0xa14c14b0, 0x72ab4b91, 0x26628815, 0xfecf0bc6, 0xd57b94a9, 0xb7755da1, 0xa80f11f0))
    ensures StateIs(m, 56,
              State(0x38cc9913, 0x3ec45cdb, 0xf5702fdb, 0x101fd28f, 0x54cb266b, 0xe50e1b4f, 0x9f4787c3, 0x529e7d00))
  {
    hide StateIs, WordIs, AbcBlock;
    Words48(m);
    var s0 := State(0x4172328d, 0xa14c14b0, 0x72ab4b91, 0x26628815, 0xfecf0bc6, 0xd57b94a9, 0xb7755da1, 0xa80f11f0);
    var s1 := State(0x05757ceb, 0x4172328d, 0xa14c14b0, 0x72ab4b91, 0xbd714038, 0xfecf0bc6, 0xd57b94a9, 0xb7755da1);
    var s2 := State(0xf11bfaa8, 0x05757ceb, 0x4172328d, 0xa14c14b0, 0x6e5c390c, 0xbd714038, 0xfecf0bc6, 0xd57b94a9);
    var s3 := State(0x7a0508a1, 0xf11bfaa8, 0x05757ceb, 0x4172328d, 0x52f1ccf7, 0x6e5c390c, 0xbd714038, 0xfecf0bc6);
    var s4 := State(0x886e7a22, 0x7a0508a1, 0xf11bfaa8, 0x05757ceb, 0x49231c1e, 0x52f1ccf7, 0x6e5c390c, 0xbd714038);
    var s5 := State(0x101fd28f, 0x886e7a22, 0x7a0508a1, 0xf11bfaa8, 0x529e7d00, 0x49231c1e, 0x52f1ccf7, 0x6e5c390c);
    var s6 := State(0xf5702fdb, 0x101fd28f, 0x886e7a22, 0x7a0508a1, 0x9f4787c3, 0x529e7d00, 0x49231c1e, 0x52f1ccf7);
    var s7 := State(0x3ec45cdb, 0xf5702fdb, 0x101fd28f, 0x886e7a22, 0xe50e1b4f, 0x9f4787c3, 0x529e7d00, 0x49231c1e);
    var s8 := State(0x38cc9913, 0x3ec45cdb, 0xf5702fdb, 0x101fd28f, 0x54cb266b, 0xe50e1b4f, 0x9f4787c3, 0x529e7d00);
    Stepped(m, 48, 0x19a4c116, 0xfb3e89cb, s0, s1);
    Stepped(m, 49, 0x1e376c08, 0xcc7617db, s1, s2);
    Stepped(m, 50, 0x2748774c, 0xb9e66c34, s2, s3);
    Stepped(m, 51, 0x34b0bcb5, 0xa9993667, s3, s4);
    Stepped(m, 52, 0x391c0cb3, 0x84badedd, s4, s5);
    Stepped(m, 53, 0x4ed8aa4a, 0xc21462bc, s5, s6);
    Stepped(m, 54, 0x5b9cca4f, 0x1487472c, s6, s7);
    Stepped(m, 55, 0x682e6ff3, 0xb20f7a99, s7, s8);
  }

  lemma Rounds56(m: Chunk)
    requires m == AbcBlock()
    requires StateIs(m, 56,
               State(0x38cc9913, 0x3ec45cdb, 0xf5702fdb, 0x101fd28f, 0x54cb266b, 0xe50e1b4f, 0x9f4787c3, 0x529e7d00))
    ensures StateIs(m, 64,
              State(0x506e3058, 0xd39a2165, 0x04d24d6c, 0xb85e2ce9, 0x5ef50f24, 0xfb121210, 0x948d25b6, 0x961f4894))
  {
    hide StateIs, WordIs, AbcBlock;
    Words48(m);
    var s0 := State(0x38cc9913, 0x3ec45cdb, 0xf5702fdb, 0x101fd28f, 0x54cb266b, 0xe50e1b4f, 0x9f4787c3, 0x529e7d00);
    var s1 := State(0xfcd1887b, 0x38cc9913, 0x3ec45cdb, 0xf5702fdb, 0x9b5e906c, 0x54cb266b, 0xe50e1b4f, 0x9f4787c3);
    var s2 := State(0xc062d46f, 0xfcd1887b, 0x38cc9913, 0x3ec45cdb, 0x7e44008e, 0x9b5e906c, 0x54cb266b, 0xe50e1b4f);
    var s3 := State(0xffb70472, 0xc062d46f, 0xfcd1887b, 0x38cc9913, 0x6d83bfc6, 0x7e44008e, 0x9b5e906c, 0x54cb266b);
    var s4 := State(0xb6ae8fff, 0xffb70472, 0xc062d46f, 0xfcd1887b, 0xb21bad3d, 0x6d83bfc6, 0x7e44008e, 0x9b5e906c);
    var s5 := State(0xb85e2ce9, 0xb6ae8fff, 0xffb70472, 0xc062d46f, 0x961f4894, 0xb21bad3d, 0x6d83bfc6, 0x7e44008e);
    var s6 := State(0x04d24d6c, 0xb85e2ce9, 0xb6ae8fff, 0xffb70472, 0x948d25b6, 0x961f4894, 0xb21bad3d, 0x6d83bfc6);
    var s7 := State(0xd39a2165, 0x04d24d6c, 0xb85e2ce9, 0xb6ae8fff, 0xfb121210, 0x948d25b6, 0x961f4894, 0xb21bad3d);
    var s8 := State(0x506e3058, 0xd39a2165, 0x04d24d6c, 0xb85e2ce9, 0x5ef50f24, 0xfb121210, 0x948d25b6, 0x961f4894);
    Stepped(m, 56, 0x748f82ee, 0xef57b9cd, s0, s1);
    Stepped(m, 57, 0x78a5636f, 0xebe6b238, s1, s2);
    Stepped(m, 58, 0x84c87814, 0x9fe3095e, s2, s3);
    Stepped(m, 59, 0x8cc70208, 0x78bc8d4b, s3, s4);
    Stepped(m, 60, 0x90befffa, 0xa43fcf15, s4, s5);
    Stepped(m, 61, 0xa4506ceb, 0x668b2ff8, s5, s6);
    Stepped(m, 62, 0xbef9a3f7, 0xeeaba2cc, s6, s7);
    Stepped(m, 63, 0xc67178f2, 0x12b1edeb, s7, s8);
  }

  lemma AllRounds(m: Chunk)
    requires m == AbcBlock()
    ensures StateIs(m, 64,
              State(0x506e3058, 0xd39a2165, 0x04d24d6c, 0xb85e2ce9, 0x5ef50f24, 0xfb121210, 0x948d25b6, 0x961f4894))
  {
    hide AbcBlock;
    assert StateIs(m, 0,
             State(0x6a09e667, 0xbb67ae85, 0x3c6ef372, 0xa54ff53a, 0x510e527f, 0x9b05688c, 0x1f83d9ab, 0x5be0cd19));
    hide StateIs;
    Rounds0(m);
    Rounds8(m);
    Rounds16(m);
    Rounds24(m);
    Rounds32(m);
    Rounds40(m);
    Rounds48(m);
    Rounds56(m);
  }

  lemma {:induction false} ZeroBytes(k: nat)
    ensures NatBytes(0, k) == Zeros(k)
  {
    if k > 0 {
      ZeroBytes(k - 1);
    }
  }

  lemma AbcPadded()
    ensures Padded(ABC) == AbcBlock()
  {
    ZeroBytes(7);
    OneByte();
    PaddingZeros(3);
    hide NatBytes, Zeros;
    assert |ABC| == 3;
  }

  lemma OneByte()
    ensures NatBytes(8 * 3, 8) == NatBytes(0, 7) + [24]
  {
  }

  lemma AbcState(m: Chunk)
    requires m == AbcBlock()
    ensures Compress(H0, m) ==
              State(0xba7816bf, 0x8f01cfea, 0x414140de, 0x5dae2223, 0xb00361a3, 0x96177a9c, 0xb410ff61, 0xf20015ad)
  {
    AllRounds(m);
    hide Rounds, AbcBlock;
  }

  lemma OneBlock(s: State, m: Chunk)
    ensures HashBlocks(s, m) == Compress(s, m)
  {
    hide Compress;
    assert m[..64] == m && m[64..] == [];
  }

  lemma AbcDigest()
    ensures WordBytes(0xba7816bf) == [0xba, 0x78, 0x16, 0xbf]
    ensures WordBytes(0x8f01cfea) == [0x8f, 0x01, 0xcf, 0xea]
    ensures WordBytes(0x414140de) == [0x41, 0x41, 0x40, 0xde]
    ensures WordBytes(0x5dae2223) == [0x5d, 0xae, 0x22, 0x23]
    ensures WordBytes(0xb00361a3) == [0xb0, 0x03, 0x61, 0xa3]
    ensures WordBytes(0x96177a9c) == [0x96, 0x17, 0x7a, 0x9c]
    ensures WordBytes(0xb410ff61) == [0xb4, 0x10, 0xff, 0x61]
    ensures WordBytes(0xf20015ad) == [0xf2, 0x00, 0x15, 0xad]
  {
  }

  /** The digest of "abc". */
  lemma Abc()
    ensures Sha256(ABC) == [
      0xba, 0x78, 0x16, 0xbf, 0x8f, 0x01, 0xcf, 0xea,
      0x41, 0x41, 0x40, 0xde, 0x5d, 0xae, 0x22, 0x23,
      0xb0, 0x03, 0x61, 0xa3, 0x96, 0x17, 0x7a, 0x9c,
      0xb4, 0x10, 0xff, 0x61, 0xf2, 0x00, 0x15, 0xad]
  {
    hide Compress, Padded, AbcBlock, WordBytes, HashBlocks;
    AbcPadded();
    OneBlock(H0, AbcBlock());
    AbcState(AbcBlock());
    AbcDigest();
  }
}
