/** The constants of the transform (libbf.c ntt_mods, ntt_proot, ntt_mods_cr for 64-bit limbs) and the
    certificate that they are what the code takes them for: each root squared fifty times is -1. */
module NttRoots {
  import opened Limbs
  import opened Congruence

  const NB_MODS := 5
  const PROOT_2EXP := 51
  const MOD_MIN: int := 0x2000_0000_0000_0000
  const MOD_MAX: int := 0x4000_0000_0000_0000

  const MODS: seq<int> := [0x28d8000000000001, 0x2a88000000000001, 0x2ed8000000000001, 0x3508000000000001,
                           0x3aa8000000000001]

  const ROOTS: seq<int> := [0x1b8ea61034a2bea7, 0x21a9762de58206fb, 0x2ca782f0756a8ea, 0x278384537a3e50a1,
                            0x106e13fee74ce0ab]

  const ROOTS_INV: seq<int> := [0x233513af133e13b8, 0x1d13140d1c6f75f1, 0x12cde57f97e3eeda, 0xd6149e23cbe654f,
                                0x36cd204f522a1379]

  /** One squaring: w to the 2^k is c, so w to the 2^(k+1) is c * c. */
  lemma Squared(w: int, k: nat, c: int, d: int, m: int)
    requires m > 0 && Cong(Power(w, P2(k)), c, m) && c * c % m == d
    ensures Cong(Power(w, P2(k + 1)), d, m)
  {
    var p := Power(w, P2(k));
    assert P2(k + 1) == P2(k) + P2(k);
    PowerAdd(w, P2(k), P2(k));
    CongMul(p, c, p, c, m);
    CongSelf(c * c, m);
  }

  lemma MinusOne(w: int, m: int)
    requires m > 0 && Cong(Power(w, P2(50)), m - 1, m)
    ensures Cong(Power(w, P2(50)), -1, m)
  {
    CongSelf(-1, m);
  }

  lemma SquaredStart(w: int, m: int)
    requires m > 0
    ensures Cong(Power(w, P2(0)), w, m)
  {
    assert Power(w, 1) == w * Power(w, 0);
  }

  lemma Root0Low()
    ensures Cong(Power(0x1b8ea61034a2bea7, P2(25)), 0x6d7161052ed33c7, 0x28d8000000000001)
  {
    hide Power, P2, Cong;
    SquaredStart(0x1b8ea61034a2bea7, 0x28d8000000000001);
    Squared(0x1b8ea61034a2bea7, 0, 0x1b8ea61034a2bea7, 0x11bf2acc9c713d40, 0x28d8000000000001);
    Squared(0x1b8ea61034a2bea7, 1, 0x11bf2acc9c713d40, 0x117ecd40b8f23ce3, 0x28d8000000000001);
    Squared(0x1b8ea61034a2bea7, 2, 0x117ecd40b8f23ce3, 0x45ca06b7dd55768, 0x28d8000000000001);
    Squared(0x1b8ea61034a2bea7, 3, 0x45ca06b7dd55768, 0x2063daa5f3ab2b8f, 0x28d8000000000001);
    Squared(0x1b8ea61034a2bea7, 4, 0x2063daa5f3ab2b8f, 0x1a8676cd7378a4a2, 0x28d8000000000001);
    Squared(0x1b8ea61034a2bea7, 5, 0x1a8676cd7378a4a2, 0x78addfbaf5d977, 0x28d8000000000001);
    Squared(0x1b8ea61034a2bea7, 6, 0x78addfbaf5d977, 0x1af47adc2454618d, 0x28d8000000000001);
    Squared(0x1b8ea61034a2bea7, 7, 0x1af47adc2454618d, 0xd47e59d2827ff15, 0x28d8000000000001);
    Squared(0x1b8ea61034a2bea7, 8, 0xd47e59d2827ff15, 0x66b730a50ae367d, 0x28d8000000000001);
    Squared(0x1b8ea61034a2bea7, 9, 0x66b730a50ae367d, 0x27c9981f5b3ed347, 0x28d8000000000001);
    Squared(0x1b8ea61034a2bea7, 10, 0x27c9981f5b3ed347, 0x765065a915fa984, 0x28d8000000000001);
    Squared(0x1b8ea61034a2bea7, 11, 0x765065a915fa984, 0xb1428bc341579c0, 0x28d8000000000001);
    Squared(0x1b8ea61034a2bea7, 12, 0xb1428bc341579c0, 0x1ee40846a81bd08, 0x28d8000000000001);
    Squared(0x1b8ea61034a2bea7, 13, 0x1ee40846a81bd08, 0xce74593826adfd0, 0x28d8000000000001);
    Squared(0x1b8ea61034a2bea7, 14, 0xce74593826adfd0, 0x4604dfcc67800f8, 0x28d8000000000001);
    Squared(0x1b8ea61034a2bea7, 15, 0x4604dfcc67800f8, 0x250ce92091a519ae, 0x28d8000000000001);
    Squared(0x1b8ea61034a2bea7, 16, 0x250ce92091a519ae, 0x9ad967836a0d03d, 0x28d8000000000001);
    Squared(0x1b8ea61034a2bea7, 17, 0x9ad967836a0d03d, 0xf79df39b7a793dd, 0x28d8000000000001);
    Squared(0x1b8ea61034a2bea7, 18, 0xf79df39b7a793dd, 0x1020b13077495562, 0x28d8000000000001);
    Squared(0x1b8ea61034a2bea7, 19, 0x1020b13077495562, 0x808861f0e23310c, 0x28d8000000000001);
    Squared(0x1b8ea61034a2bea7, 20, 0x808861f0e23310c, 0x1881d30f64dde1b2, 0x28d8000000000001);
    Squared(0x1b8ea61034a2bea7, 21, 0x1881d30f64dde1b2, 0xba18994b0308683, 0x28d8000000000001);
    Squared(0x1b8ea61034a2bea7, 22, 0xba18994b0308683, 0x2bc9718ea5abba3, 0x28d8000000000001);
    Squared(0x1b8ea61034a2bea7, 23, 0x2bc9718ea5abba3, 0x1ba0869095d3d799, 0x28d8000000000001);
    Squared(0x1b8ea61034a2bea7, 24, 0x1ba0869095d3d799, 0x6d7161052ed33c7, 0x28d8000000000001);
  }

  lemma Root0()
    ensures Cong(Power(ROOTS[0], P2(50)), -1, MODS[0])
  {
    hide Power, P2, Cong;
    Root0Low();
    Squared(0x1b8ea61034a2bea7, 25, 0x6d7161052ed33c7, 0x25ee3bd9c046a388, 0x28d8000000000001);
    Squared(0x1b8ea61034a2bea7, 26, 0x25ee3bd9c046a388, 0x524cb3892ce2ac, 0x28d8000000000001);
    Squared(0x1b8ea61034a2bea7, 27, 0x524cb3892ce2ac, 0x21e3892da47bfed1, 0x28d8000000000001);
    Squared(0x1b8ea61034a2bea7, 28, 0x21e3892da47bfed1, 0x1a6a218533869415, 0x28d8000000000001);
    Squared(0x1b8ea61034a2bea7, 29, 0x1a6a218533869415, 0x1e40f499a11e5c2f, 0x28d8000000000001);
    Squared(0x1b8ea61034a2bea7, 30, 0x1e40f499a11e5c2f, 0x1eea26409f9fadd8, 0x28d8000000000001);
    Squared(0x1b8ea61034a2bea7, 31, 0x1eea26409f9fadd8, 0x29490b7904c808c, 0x28d8000000000001);
    Squared(0x1b8ea61034a2bea7, 32, 0x29490b7904c808c, 0x381b45240bee56d, 0x28d8000000000001);
    Squared(0x1b8ea61034a2bea7, 33, 0x381b45240bee56d, 0xbe930411abbd7ef, 0x28d8000000000001);
    Squared(0x1b8ea61034a2bea7, 34, 0xbe930411abbd7ef, 0x1b2cc404c1f00eab, 0x28d8000000000001);
    Squared(0x1b8ea61034a2bea7, 35, 0x1b2cc404c1f00eab, 0x1b758c419b9072ed, 0x28d8000000000001);
    Squared(0x1b8ea61034a2bea7, 36, 0x1b758c419b9072ed, 0x931dd93b729b453, 0x28d8000000000001);
    Squared(0x1b8ea61034a2bea7, 37, 0x931dd93b729b453, 0x224524552b855f94, 0x28d8000000000001);
    Squared(0x1b8ea61034a2bea7, 38, 0x224524552b855f94, 0x1020098506d09868, 0x28d8000000000001);
    Squared(0x1b8ea61034a2bea7, 39, 0x1020098506d09868, 0x19865c9022733918, 0x28d8000000000001);
    Squared(0x1b8ea61034a2bea7, 40, 0x19865c9022733918, 0x1480b64fff3cb853, 0x28d8000000000001);
    Squared(0x1b8ea61034a2bea7, 41, 0x1480b64fff3cb853, 0x16070c056f2e8ff4, 0x28d8000000000001);
    Squared(0x1b8ea61034a2bea7, 42, 0x16070c056f2e8ff4, 0x1620b4151aecbd96, 0x28d8000000000001);
    Squared(0x1b8ea61034a2bea7, 43, 0x1620b4151aecbd96, 0x3420ab6137bbd61, 0x28d8000000000001);
    Squared(0x1b8ea61034a2bea7, 44, 0x3420ab6137bbd61, 0x2719ec745b89fb2d, 0x28d8000000000001);
    Squared(0x1b8ea61034a2bea7, 45, 0x2719ec745b89fb2d, 0x276d1af9b2668e7b, 0x28d8000000000001);
    Squared(0x1b8ea61034a2bea7, 46, 0x276d1af9b2668e7b, 0x225c203ea7b1acc0, 0x28d8000000000001);
    Squared(0x1b8ea61034a2bea7, 47, 0x225c203ea7b1acc0, 0x240936938e1ab821, 0x28d8000000000001);
    Squared(0x1b8ea61034a2bea7, 48, 0x240936938e1ab821, 0x22ddbb3c2ad555da, 0x28d8000000000001);
    Squared(0x1b8ea61034a2bea7, 49, 0x22ddbb3c2ad555da, 0x28d8000000000000, 0x28d8000000000001);
    MinusOne(0x1b8ea61034a2bea7, 0x28d8000000000001);
  }

  lemma Root1Low()
    ensures Cong(Power(0x21a9762de58206fb, P2(25)), 0x23cbffd3ac83c407, 0x2a88000000000001)
  {
    hide Power, P2, Cong;
    SquaredStart(0x21a9762de58206fb, 0x2a88000000000001);
    Squared(0x21a9762de58206fb, 0, 0x21a9762de58206fb, 0xc115151fccaa3b6, 0x2a88000000000001);
    Squared(0x21a9762de58206fb, 1, 0xc115151fccaa3b6, 0x1933cae903d6df84, 0x2a88000000000001);
    Squared(0x21a9762de58206fb, 2, 0x1933cae903d6df84, 0x18ced8f84565af47, 0x2a88000000000001);
    Squared(0x21a9762de58206fb, 3, 0x18ced8f84565af47, 0x10d701bec133727f, 0x2a88000000000001);
    Squared(0x21a9762de58206fb, 4, 0x10d701bec133727f, 0xf78a7db7410d9f9, 0x2a88000000000001);
    Squared(0x21a9762de58206fb, 5, 0xf78a7db7410d9f9, 0x16e656d8509df599, 0x2a88000000000001);
    Squared(0x21a9762de58206fb, 6, 0x16e656d8509df599, 0x188bef80e2704c11, 0x2a88000000000001);
    Squared(0x21a9762de58206fb, 7, 0x188bef80e2704c11, 0x1c318b73df288f7a, 0x2a88000000000001);
    Squared(0x21a9762de58206fb, 8, 0x1c318b73df288f7a, 0x262a41498b083a7, 0x2a88000000000001);
    Squared(0x21a9762de58206fb, 9, 0x262a41498b083a7, 0x95660e210288c6a, 0x2a88000000000001);
    Squared(0x21a9762de58206fb, 10, 0x95660e210288c6a, 0xd97b8fe678e8d34, 0x2a88000000000001);
    Squared(0x21a9762de58206fb, 11, 0xd97b8fe678e8d34, 0xa46e05bdca82f31, 0x2a88000000000001);
    Squared(0x21a9762de58206fb, 12, 0xa46e05bdca82f31, 0x13f1190692921afa, 0x2a88000000000001);
    Squared(0x21a9762de58206fb, 13, 0x13f1190692921afa, 0x110b6c5ed7a45289, 0x2a88000000000001);
    Squared(0x21a9762de58206fb, 14, 0x110b6c5ed7a45289, 0x29d6f683253995cf, 0x2a88000000000001);
    Squared(0x21a9762de58206fb, 15, 0x29d6f683253995cf, 0xfd60a2a200f9c26, 0x2a88000000000001);
    Squared(0x21a9762de58206fb, 16, 0xfd60a2a200f9c26, 0x2738a11d5cd1c02c, 0x2a88000000000001);
    Squared(0x21a9762de58206fb, 17, 0x2738a11d5cd1c02c, 0x13391b2515ab46f8, 0x2a88000000000001);
    Squared(0x21a9762de58206fb, 18, 0x13391b2515ab46f8, 0x13e82823a00faf4b, 0x2a88000000000001);
    Squared(0x21a9762de58206fb, 19, 0x13e82823a00faf4b, 0x2453b59951f862eb, 0x2a88000000000001);
    Squared(0x21a9762de58206fb, 20, 0x2453b59951f862eb, 0x20208e091c61e871, 0x2a88000000000001);
    Squared(0x21a9762de58206fb, 21, 0x20208e091c61e871, 0x19109e9184890ca7, 0x2a88000000000001);
    Squared(0x21a9762de58206fb, 22, 0x19109e9184890ca7, 0x16a696d4620b5233, 0x2a88000000000001);
    Squared(0x21a9762de58206fb, 23, 0x16a696d4620b5233, 0x112c70cff4f937c8, 0x2a88000000000001);
    Squared(0x21a9762de58206fb, 24, 0x112c70cff4f937c8, 0x23cbffd3ac83c407, 0x2a88000000000001);
  }

  lemma Root1()
    ensures Cong(Power(ROOTS[1], P2(50)), -1, MODS[1])
  {
    hide Power, P2, Cong;
    Root1Low();
    Squared(0x21a9762de58206fb, 25, 0x23cbffd3ac83c407, 0x28ed6ee4f7941100, 0x2a88000000000001);
    Squared(0x21a9762de58206fb, 26, 0x28ed6ee4f7941100, 0x1f7efd54d99ae8f3, 0x2a88000000000001);
    Squared(0x21a9762de58206fb, 27, 0x1f7efd54d99ae8f3, 0xf9234a42f60ed3d, 0x2a88000000000001);
    Squared(0x21a9762de58206fb, 28, 0xf9234a42f60ed3d, 0x16361632299e1269, 0x2a88000000000001);
    Squared(0x21a9762de58206fb, 29, 0x16361632299e1269, 0x8dfc85ec8f66421, 0x2a88000000000001);
    Squared(0x21a9762de58206fb, 30, 0x8dfc85ec8f66421, 0x162affd6d19e3f6d, 0x2a88000000000001);
    Squared(0x21a9762de58206fb, 31, 0x162affd6d19e3f6d, 0x1ba70f27ded992c5, 0x2a88000000000001);
    Squared(0x21a9762de58206fb, 32, 0x1ba70f27ded992c5, 0xc74896769ae521, 0x2a88000000000001);
    Squared(0x21a9762de58206fb, 33, 0xc74896769ae521, 0x78c95dc9fe7d84e, 0x2a88000000000001);
    Squared(0x21a9762de58206fb, 34, 0x78c95dc9fe7d84e, 0x26f15b9d4656e9fe, 0x2a88000000000001);
    Squared(0x21a9762de58206fb, 35, 0x26f15b9d4656e9fe, 0x211501d49e89e6db, 0x2a88000000000001);
    Squared(0x21a9762de58206fb, 36, 0x211501d49e89e6db, 0x13d5227e55bcd481, 0x2a88000000000001);
    Squared(0x21a9762de58206fb, 37, 0x13d5227e55bcd481, 0x2b4e46443b48209, 0x2a88000000000001);
    Squared(0x21a9762de58206fb, 38, 0x2b4e46443b48209, 0x9b98236f89da2c7, 0x2a88000000000001);
    Squared(0x21a9762de58206fb, 39, 0x9b98236f89da2c7, 0x25b15c692eacff82, 0x2a88000000000001);
    Squared(0x21a9762de58206fb, 40, 0x25b15c692eacff82, 0x12fe079fb471ccf6, 0x2a88000000000001);
    Squared(0x21a9762de58206fb, 41, 0x12fe079fb471ccf6, 0x1c7f25769cdefca6, 0x2a88000000000001);
    Squared(0x21a9762de58206fb, 42, 0x1c7f25769cdefca6, 0x19458bb7142589e2, 0x2a88000000000001);
    Squared(0x21a9762de58206fb, 43, 0x19458bb7142589e2, 0x1044bb49e3593fb, 0x2a88000000000001);
    Squared(0x21a9762de58206fb, 44, 0x1044bb49e3593fb, 0xa951fcee81e1917, 0x2a88000000000001);
    Squared(0x21a9762de58206fb, 45, 0xa951fcee81e1917, 0x10ae703a3f62fd23, 0x2a88000000000001);
    Squared(0x21a9762de58206fb, 46, 0x10ae703a3f62fd23, 0xbac4480425c3eec, 0x2a88000000000001);
    Squared(0x21a9762de58206fb, 47, 0xbac4480425c3eec, 0x146bd875e06a2fc4, 0x2a88000000000001);
    Squared(0x21a9762de58206fb, 48, 0x146bd875e06a2fc4, 0x236e45c7a9102530, 0x2a88000000000001);
    Squared(0x21a9762de58206fb, 49, 0x236e45c7a9102530, 0x2a88000000000000, 0x2a88000000000001);
    MinusOne(0x21a9762de58206fb, 0x2a88000000000001);
  }

  lemma Root2Low()
    ensures Cong(Power(0x2ca782f0756a8ea, P2(25)), 0x2883edd0b24d7431, 0x2ed8000000000001)
  {
    hide Power, P2, Cong;
    SquaredStart(0x2ca782f0756a8ea, 0x2ed8000000000001);
    Squared(0x2ca782f0756a8ea, 0, 0x2ca782f0756a8ea, 0x7f8af468fa96c01, 0x2ed8000000000001);
    Squared(0x2ca782f0756a8ea, 1, 0x7f8af468fa96c01, 0x2893e1a955313b47, 0x2ed8000000000001);
    Squared(0x2ca782f0756a8ea, 2, 0x2893e1a955313b47, 0x119875c71c305e20, 0x2ed8000000000001);
    Squared(0x2ca782f0756a8ea, 3, 0x119875c71c305e20, 0xfea39f4f588e372, 0x2ed8000000000001);
    Squared(0x2ca782f0756a8ea, 4, 0xfea39f4f588e372, 0x3616ec68cc63a53, 0x2ed8000000000001);
    Squared(0x2ca782f0756a8ea, 5, 0x3616ec68cc63a53, 0x1dd280e8ca562289, 0x2ed8000000000001);
    Squared(0x2ca782f0756a8ea, 6, 0x1dd280e8ca562289, 0x89b4335356f5ba9, 0x2ed8000000000001);
    Squared(0x2ca782f0756a8ea, 7, 0x89b4335356f5ba9, 0x46e97af40d727e, 0x2ed8000000000001);
    Squared(0x2ca782f0756a8ea, 8, 0x46e97af40d727e, 0xc73b3b44a90e273, 0x2ed8000000000001);
    Squared(0x2ca782f0756a8ea, 9, 0xc73b3b44a90e273, 0x61dfe8ca6992956, 0x2ed8000000000001);
    Squared(0x2ca782f0756a8ea, 10, 0x61dfe8ca6992956, 0x1d3e5bdaac52234d, 0x2ed8000000000001);
    Squared(0x2ca782f0756a8ea, 11, 0x1d3e5bdaac52234d, 0x1575c284b0956e53, 0x2ed8000000000001);
    Squared(0x2ca782f0756a8ea, 12, 0x1575c284b0956e53, 0x15be952d05199cd2, 0x2ed8000000000001);
    Squared(0x2ca782f0756a8ea, 13, 0x15be952d05199cd2, 0x1847a2dddac12664, 0x2ed8000000000001);
    Squared(0x2ca782f0756a8ea, 14, 0x1847a2dddac12664, 0x962b718917de5a0, 0x2ed8000000000001);
    Squared(0x2ca782f0756a8ea, 15, 0x962b718917de5a0, 0x1d0441ae2fbb4b0e, 0x2ed8000000000001);
    Squared(0x2ca782f0756a8ea, 16, 0x1d0441ae2fbb4b0e, 0x10bc206b633195d3, 0x2ed8000000000001);
    Squared(0x2ca782f0756a8ea, 17, 0x10bc206b633195d3, 0xd4e22f9033841f, 0x2ed8000000000001);
    Squared(0x2ca782f0756a8ea, 18, 0xd4e22f9033841f, 0x2ba776ed50d8b268, 0x2ed8000000000001);
    Squared(0x2ca782f0756a8ea, 19, 0x2ba776ed50d8b268, 0x2783d493568cb20b, 0x2ed8000000000001);
    Squared(0x2ca782f0756a8ea, 20, 0x2783d493568cb20b, 0x292654bbfb073949, 0x2ed8000000000001);
    Squared(0x2ca782f0756a8ea, 21, 0x292654bbfb073949, 0xb0aea6ed03a0b36, 0x2ed8000000000001);
    Squared(0x2ca782f0756a8ea, 22, 0xb0aea6ed03a0b36, 0x1f4c53ba8b9be4fe, 0x2ed8000000000001);
    Squared(0x2ca782f0756a8ea, 23, 0x1f4c53ba8b9be4fe, 0x1186c4d8d6712ea1, 0x2ed8000000000001);
    Squared(0x2ca782f0756a8ea, 24, 0x1186c4d8d6712ea1, 0x2883edd0b24d7431, 0x2ed8000000000001);
  }

  lemma Root2()
    ensures Cong(Power(ROOTS[2], P2(50)), -1, MODS[2])
  {
    hide Power, P2, Cong;
    Root2Low();
    Squared(0x2ca782f0756a8ea, 25, 0x2883edd0b24d7431, 0x133a9d8b542f301b, 0x2ed8000000000001);
    Squared(0x2ca782f0756a8ea, 26, 0x133a9d8b542f301b, 0x1345aa59bc4d4ab9, 0x2ed8000000000001);
    Squared(0x2ca782f0756a8ea, 27, 0x1345aa59bc4d4ab9, 0x15517f78be3ba004, 0x2ed8000000000001);
    Squared(0x2ca782f0756a8ea, 28, 0x15517f78be3ba004, 0x167add39f82a332c, 0x2ed8000000000001);
    Squared(0x2ca782f0756a8ea, 29, 0x167add39f82a332c, 0x126cd52ee5f02406, 0x2ed8000000000001);
    Squared(0x2ca782f0756a8ea, 30, 0x126cd52ee5f02406, 0x2f285446e0e92d, 0x2ed8000000000001);
    Squared(0x2ca782f0756a8ea, 31, 0x2f285446e0e92d, 0x2644ab2c4cd4e358, 0x2ed8000000000001);
    Squared(0x2ca782f0756a8ea, 32, 0x2644ab2c4cd4e358, 0xc2993c49ed39235, 0x2ed8000000000001);
    Squared(0x2ca782f0756a8ea, 33, 0xc2993c49ed39235, 0x9fc2f6fc81e4e61, 0x2ed8000000000001);
    Squared(0x2ca782f0756a8ea, 34, 0x9fc2f6fc81e4e61, 0x185e1567702365d4, 0x2ed8000000000001);
    Squared(0x2ca782f0756a8ea, 35, 0x185e1567702365d4, 0x15c2be1efb484f5a, 0x2ed8000000000001);
    Squared(0x2ca782f0756a8ea, 36, 0x15c2be1efb484f5a, 0x3173e6d0fed32fb, 0x2ed8000000000001);
    Squared(0x2ca782f0756a8ea, 37, 0x3173e6d0fed32fb, 0x2c1a707e395ae3bc, 0x2ed8000000000001);
    Squared(0x2ca782f0756a8ea, 38, 0x2c1a707e395ae3bc, 0x2c985ac26b3d5b61, 0x2ed8000000000001);
    Squared(0x2ca782f0756a8ea, 39, 0x2c985ac26b3d5b61, 0x2956b4b2229d8a8b, 0x2ed8000000000001);
    Squared(0x2ca782f0756a8ea, 40, 0x2956b4b2229d8a8b, 0x2e5f530afca3420d, 0x2ed8000000000001);
    Squared(0x2ca782f0756a8ea, 41, 0x2e5f530afca3420d, 0x3d58c348242857b, 0x2ed8000000000001);
    Squared(0x2ca782f0756a8ea, 42, 0x3d58c348242857b, 0x11120bcfa53759b0, 0x2ed8000000000001);
    Squared(0x2ca782f0756a8ea, 43, 0x11120bcfa53759b0, 0xf680f483975f033, 0x2ed8000000000001);
    Squared(0x2ca782f0756a8ea, 44, 0xf680f483975f033, 0x22f1a7a7bbadcd3b, 0x2ed8000000000001);
    Squared(0x2ca782f0756a8ea, 45, 0x22f1a7a7bbadcd3b, 0x1970ef6c9cbcd317, 0x2ed8000000000001);
    Squared(0x2ca782f0756a8ea, 46, 0x1970ef6c9cbcd317, 0x14bc81fbda4489b1, 0x2ed8000000000001);
    Squared(0x2ca782f0756a8ea, 47, 0x14bc81fbda4489b1, 0x1fbd441fe5e70563, 0x2ed8000000000001);
    Squared(0x2ca782f0756a8ea, 48, 0x1fbd441fe5e70563, 0x15ebb0edef885436, 0x2ed8000000000001);
    Squared(0x2ca782f0756a8ea, 49, 0x15ebb0edef885436, 0x2ed8000000000000, 0x2ed8000000000001);
    MinusOne(0x2ca782f0756a8ea, 0x2ed8000000000001);
  }

  lemma Root3Low()
    ensures Cong(Power(0x278384537a3e50a1, P2(25)), 0x77bb40c803c1315, 0x3508000000000001)
  {
    hide Power, P2, Cong;
    SquaredStart(0x278384537a3e50a1, 0x3508000000000001);
    Squared(0x278384537a3e50a1, 0, 0x278384537a3e50a1, 0xd82aa94862db309, 0x3508000000000001);
    Squared(0x278384537a3e50a1, 1, 0xd82aa94862db309, 0x17c5b1d8edc947b5, 0x3508000000000001);
    Squared(0x278384537a3e50a1, 2, 0x17c5b1d8edc947b5, 0x1f0991d2b810c767, 0x3508000000000001);
    Squared(0x278384537a3e50a1, 3, 0x1f0991d2b810c767, 0x158dad655569cce8, 0x3508000000000001);
    Squared(0x278384537a3e50a1, 4, 0x158dad655569cce8, 0x343a21dd03b176d0, 0x3508000000000001);
    Squared(0x278384537a3e50a1, 5, 0x343a21dd03b176d0, 0xbd704064191e73e, 0x3508000000000001);
    Squared(0x278384537a3e50a1, 6, 0xbd704064191e73e, 0x30d37af324a91bf3, 0x3508000000000001);
    Squared(0x278384537a3e50a1, 7, 0x30d37af324a91bf3, 0x10c457f05ef48610, 0x3508000000000001);
    Squared(0x278384537a3e50a1, 8, 0x10c457f05ef48610, 0x336d9c346ad224cd, 0x3508000000000001);
    Squared(0x278384537a3e50a1, 9, 0x336d9c346ad224cd, 0xc5ddfd400bd872, 0x3508000000000001);
    Squared(0x278384537a3e50a1, 10, 0xc5ddfd400bd872, 0x1215afd41184f7b4, 0x3508000000000001);
    Squared(0x278384537a3e50a1, 11, 0x1215afd41184f7b4, 0x1dca774d45bb85bb, 0x3508000000000001);
    Squared(0x278384537a3e50a1, 12, 0x1dca774d45bb85bb, 0x2590abd47f6f2b7b, 0x3508000000000001);
    Squared(0x278384537a3e50a1, 13, 0x2590abd47f6f2b7b, 0x3431c6d1a0e183d2, 0x3508000000000001);
    Squared(0x278384537a3e50a1, 14, 0x3431c6d1a0e183d2, 0x2ba9d15184e56f91, 0x3508000000000001);
    Squared(0x278384537a3e50a1, 15, 0x2ba9d15184e56f91, 0xa077f0e808f55e7, 0x3508000000000001);
    Squared(0x278384537a3e50a1, 16, 0xa077f0e808f55e7, 0x10e4aca6fe02a647, 0x3508000000000001);
    Squared(0x278384537a3e50a1, 17, 0x10e4aca6fe02a647, 0x27a6aad24167a986, 0x3508000000000001);
    Squared(0x278384537a3e50a1, 18, 0x27a6aad24167a986, 0x2ad8532952214a5d, 0x3508000000000001);
    Squared(0x278384537a3e50a1, 19, 0x2ad8532952214a5d, 0x197defb964696287, 0x3508000000000001);
    Squared(0x278384537a3e50a1, 20, 0x197defb964696287, 0xb87fab71e36ea1a, 0x3508000000000001);
    Squared(0x278384537a3e50a1, 21, 0xb87fab71e36ea1a, 0x1690822d1f88258f, 0x3508000000000001);
    Squared(0x278384537a3e50a1, 22, 0x1690822d1f88258f, 0x1e52d2eacbc69b26, 0x3508000000000001);
    Squared(0x278384537a3e50a1, 23, 0x1e52d2eacbc69b26, 0xeb3bb6912cb9ea0, 0x3508000000000001);
    Squared(0x278384537a3e50a1, 24, 0xeb3bb6912cb9ea0, 0x77bb40c803c1315, 0x3508000000000001);
  }

  lemma Root3()
    ensures Cong(Power(ROOTS[3], P2(50)), -1, MODS[3])
  {
    hide Power, P2, Cong;
    Root3Low();
    Squared(0x278384537a3e50a1, 25, 0x77bb40c803c1315, 0x2013203188e97741, 0x3508000000000001);
    Squared(0x278384537a3e50a1, 26, 0x2013203188e97741, 0x18d07bde7b143666, 0x3508000000000001);
    Squared(0x278384537a3e50a1, 27, 0x18d07bde7b143666, 0x334456414536a778, 0x3508000000000001);
    Squared(0x278384537a3e50a1, 28, 0x334456414536a778, 0x8dc7997ac088ab6, 0x3508000000000001);
    Squared(0x278384537a3e50a1, 29, 0x8dc7997ac088ab6, 0x1ac41ca88e35b838, 0x3508000000000001);
    Squared(0x278384537a3e50a1, 30, 0x1ac41ca88e35b838, 0x11c342f956abb257, 0x3508000000000001);
    Squared(0x278384537a3e50a1, 31, 0x11c342f956abb257, 0x7fc7ef283fe83b4, 0x3508000000000001);
    Squared(0x278384537a3e50a1, 32, 0x7fc7ef283fe83b4, 0x24e0c3613c97a76a, 0x3508000000000001);
    Squared(0x278384537a3e50a1, 33, 0x24e0c3613c97a76a, 0xf2aad0a6ea1df84, 0x3508000000000001);
    Squared(0x278384537a3e50a1, 34, 0xf2aad0a6ea1df84, 0x113ef3259d22e0e7, 0x3508000000000001);
    Squared(0x278384537a3e50a1, 35, 0x113ef3259d22e0e7, 0x80798a2565138f9, 0x3508000000000001);
    Squared(0x278384537a3e50a1, 36, 0x80798a2565138f9, 0x33d53835ce5bc3ad, 0x3508000000000001);
    Squared(0x278384537a3e50a1, 37, 0x33d53835ce5bc3ad, 0xf532653e3b244ce, 0x3508000000000001);
    Squared(0x278384537a3e50a1, 38, 0xf532653e3b244ce, 0xc39b4ae0e71ff75, 0x3508000000000001);
    Squared(0x278384537a3e50a1, 39, 0xc39b4ae0e71ff75, 0x2484f63c7f3a0060, 0x3508000000000001);
    Squared(0x278384537a3e50a1, 40, 0x2484f63c7f3a0060, 0x2d85376e2b036871, 0x3508000000000001);
    Squared(0x278384537a3e50a1, 41, 0x2d85376e2b036871, 0x2ac7b1f3aa076f6e, 0x3508000000000001);
    Squared(0x278384537a3e50a1, 42, 0x2ac7b1f3aa076f6e, 0xc62d8c29ed3e71c, 0x3508000000000001);
    Squared(0x278384537a3e50a1, 43, 0xc62d8c29ed3e71c, 0x22b72fb700b997ff, 0x3508000000000001);
    Squared(0x278384537a3e50a1, 44, 0x22b72fb700b997ff, 0x477b150e0cdd0d0, 0x3508000000000001);
    Squared(0x278384537a3e50a1, 45, 0x477b150e0cdd0d0, 0x82a9b91aafa024c, 0x3508000000000001);
    Squared(0x278384537a3e50a1, 46, 0x82a9b91aafa024c, 0x1255b0fb439fed7f, 0x3508000000000001);
    Squared(0x278384537a3e50a1, 47, 0x1255b0fb439fed7f, 0x12b6abe6c05ea197, 0x3508000000000001);
    Squared(0x278384537a3e50a1, 48, 0x12b6abe6c05ea197, 0x1639a4efab5872e6, 0x3508000000000001);
    Squared(0x278384537a3e50a1, 49, 0x1639a4efab5872e6, 0x3508000000000000, 0x3508000000000001);
    MinusOne(0x278384537a3e50a1, 0x3508000000000001);
  }

  lemma Root4Low()
    ensures Cong(Power(0x106e13fee74ce0ab, P2(25)), 0xa6b48a027ed9cb0, 0x3aa8000000000001)
  {
    hide Power, P2, Cong;
    SquaredStart(0x106e13fee74ce0ab, 0x3aa8000000000001);
    Squared(0x106e13fee74ce0ab, 0, 0x106e13fee74ce0ab, 0x2ab4e3986f2ee22c, 0x3aa8000000000001);
    Squared(0x106e13fee74ce0ab, 1, 0x2ab4e3986f2ee22c, 0x99040fca134ac6b, 0x3aa8000000000001);
    Squared(0x106e13fee74ce0ab, 2, 0x99040fca134ac6b, 0x117d12ab5ecb3741, 0x3aa8000000000001);
    Squared(0x106e13fee74ce0ab, 3, 0x117d12ab5ecb3741, 0x7d5f7dc1c1f064c, 0x3aa8000000000001);
    Squared(0x106e13fee74ce0ab, 4, 0x7d5f7dc1c1f064c, 0x34744e3bc14f85e3, 0x3aa8000000000001);
    Squared(0x106e13fee74ce0ab, 5, 0x34744e3bc14f85e3, 0xfd68f624aa11dbb, 0x3aa8000000000001);
    Squared(0x106e13fee74ce0ab, 6, 0xfd68f624aa11dbb, 0x18686bf84cb33e74, 0x3aa8000000000001);
    Squared(0x106e13fee74ce0ab, 7, 0x18686bf84cb33e74, 0x3530cf4f724d4754, 0x3aa8000000000001);
    Squared(0x106e13fee74ce0ab, 8, 0x3530cf4f724d4754, 0x500c9b305228d71, 0x3aa8000000000001);
    Squared(0x106e13fee74ce0ab, 9, 0x500c9b305228d71, 0x13ea5d9520df4233, 0x3aa8000000000001);
    Squared(0x106e13fee74ce0ab, 10, 0x13ea5d9520df4233, 0xdf5a5ca37b8046e, 0x3aa8000000000001);
    Squared(0x106e13fee74ce0ab, 11, 0xdf5a5ca37b8046e, 0x396e257658ca538, 0x3aa8000000000001);
    Squared(0x106e13fee74ce0ab, 12, 0x396e257658ca538, 0x6e738d90aaf4949, 0x3aa8000000000001);
    Squared(0x106e13fee74ce0ab, 13, 0x6e738d90aaf4949, 0x154a5bd6583090cf, 0x3aa8000000000001);
    Squared(0x106e13fee74ce0ab, 14, 0x154a5bd6583090cf, 0x16605fa7ea67abaa, 0x3aa8000000000001);
    Squared(0x106e13fee74ce0ab, 15, 0x16605fa7ea67abaa, 0x29528a36b3b3ad3e, 0x3aa8000000000001);
    Squared(0x106e13fee74ce0ab, 16, 0x29528a36b3b3ad3e, 0xb445908ec80a80, 0x3aa8000000000001);
    Squared(0x106e13fee74ce0ab, 17, 0xb445908ec80a80, 0x38cd2dec35b1a093, 0x3aa8000000000001);
    Squared(0x106e13fee74ce0ab, 18, 0x38cd2dec35b1a093, 0x37a3654336860829, 0x3aa8000000000001);
    Squared(0x106e13fee74ce0ab, 19, 0x37a3654336860829, 0x16d4e6036332f01f, 0x3aa8000000000001);
    Squared(0x106e13fee74ce0ab, 20, 0x16d4e6036332f01f, 0x21deac0f1b7c42e3, 0x3aa8000000000001);
    Squared(0x106e13fee74ce0ab, 21, 0x21deac0f1b7c42e3, 0x37d19eb869380dee, 0x3aa8000000000001);
    Squared(0x106e13fee74ce0ab, 22, 0x37d19eb869380dee, 0x35f275215541e0fa, 0x3aa8000000000001);
    Squared(0x106e13fee74ce0ab, 23, 0x35f275215541e0fa, 0x37a7a16e0d67f70b, 0x3aa8000000000001);
    Squared(0x106e13fee74ce0ab, 24, 0x37a7a16e0d67f70b, 0xa6b48a027ed9cb0, 0x3aa8000000000001);
  }

  lemma Root4()
    ensures Cong(Power(ROOTS[4], P2(50)), -1, MODS[4])
  {
    hide Power, P2, Cong;
    Root4Low();
    Squared(0x106e13fee74ce0ab, 25, 0xa6b48a027ed9cb0, 0x1af75487599c3922, 0x3aa8000000000001);
    Squared(0x106e13fee74ce0ab, 26, 0x1af75487599c3922, 0x17aee30790b9e2b3, 0x3aa8000000000001);
    Squared(0x106e13fee74ce0ab, 27, 0x17aee30790b9e2b3, 0x1de18789eb23e9e0, 0x3aa8000000000001);
    Squared(0x106e13fee74ce0ab, 28, 0x1de18789eb23e9e0, 0xf54a92367f882db, 0x3aa8000000000001);
    Squared(0x106e13fee74ce0ab, 29, 0xf54a92367f882db, 0x1e99135084ab55df, 0x3aa8000000000001);
    Squared(0x106e13fee74ce0ab, 30, 0x1e99135084ab55df, 0x2c8dcbb44789fc3d, 0x3aa8000000000001);
    Squared(0x106e13fee74ce0ab, 31, 0x2c8dcbb44789fc3d, 0x1bbbb5ff84595c2b, 0x3aa8000000000001);
    Squared(0x106e13fee74ce0ab, 32, 0x1bbbb5ff84595c2b, 0x210be1ecd56e9b43, 0x3aa8000000000001);
    Squared(0x106e13fee74ce0ab, 33, 0x210be1ecd56e9b43, 0x31cf0e77383bda15, 0x3aa8000000000001);
    Squared(0x106e13fee74ce0ab, 34, 0x31cf0e77383bda15, 0x230389d03a9741a9, 0x3aa8000000000001);
    Squared(0x106e13fee74ce0ab, 35, 0x230389d03a9741a9, 0x2c01d728b756e204, 0x3aa8000000000001);
    Squared(0x106e13fee74ce0ab, 36, 0x2c01d728b756e204, 0x1b1a6ae0e8214e50, 0x3aa8000000000001);
    Squared(0x106e13fee74ce0ab, 37, 0x1b1a6ae0e8214e50, 0x3a19a8749981d638, 0x3aa8000000000001);
    Squared(0x106e13fee74ce0ab, 38, 0x3a19a8749981d638, 0x38236c52f5edb34c, 0x3aa8000000000001);
    Squared(0x106e13fee74ce0ab, 39, 0x38236c52f5edb34c, 0x2d6d4ea45938d2da, 0x3aa8000000000001);
    Squared(0x106e13fee74ce0ab, 40, 0x2d6d4ea45938d2da, 0x2af11c7b4888771b, 0x3aa8000000000001);
    Squared(0x106e13fee74ce0ab, 41, 0x2af11c7b4888771b, 0x2e7b6c570b501118, 0x3aa8000000000001);
    Squared(0x106e13fee74ce0ab, 42, 0x2e7b6c570b501118, 0x339a275f79ea4bbd, 0x3aa8000000000001);
    Squared(0x106e13fee74ce0ab, 43, 0x339a275f79ea4bbd, 0x376da315b593dc22, 0x3aa8000000000001);
    Squared(0x106e13fee74ce0ab, 44, 0x376da315b593dc22, 0xb831418ae2216ee, 0x3aa8000000000001);
    Squared(0x106e13fee74ce0ab, 45, 0xb831418ae2216ee, 0x1acd71a3bfdfd8de, 0x3aa8000000000001);
    Squared(0x106e13fee74ce0ab, 46, 0x1acd71a3bfdfd8de, 0x226a78b52d57311, 0x3aa8000000000001);
    Squared(0x106e13fee74ce0ab, 47, 0x226a78b52d57311, 0x341060b345a6187d, 0x3aa8000000000001);
    Squared(0x106e13fee74ce0ab, 48, 0x341060b345a6187d, 0x190871e7f52cc53, 0x3aa8000000000001);
    Squared(0x106e13fee74ce0ab, 49, 0x190871e7f52cc53, 0x3aa8000000000000, 0x3aa8000000000001);
    MinusOne(0x106e13fee74ce0ab, 0x3aa8000000000001);
  }

  /** Every modulus has a root of unity of order 2^51, and its inverse. */
  lemma RootsOk(j: nat)
    requires j < NB_MODS
    ensures MOD_MIN <= MODS[j] < MOD_MAX && MODS[j] % 2 == 1
    ensures 0 < ROOTS[j] < MODS[j] && 0 < ROOTS_INV[j] < MODS[j]
    ensures Cong(Power(ROOTS[j], P2(50)), -1, MODS[j]) && Cong(ROOTS[j] * ROOTS_INV[j], 1, MODS[j])
  {
    hide Power, P2, Cong;
    RootOrder(j);
    InverseRoot(j);
  }

  lemma RootOrder(j: nat)
    requires j < NB_MODS
    ensures Cong(Power(ROOTS[j], P2(50)), -1, MODS[j])
  {
    hide Power, P2, Cong;
    if j == 0 {
      Root0();
    } else if j == 1 {
      Root1();
    } else if j == 2 {
      Root2();
    } else if j == 3 {
      Root3();
    } else {
      Root4();
    }
  }

  lemma InverseRoot(j: nat)
    requires j < NB_MODS
    ensures Cong(ROOTS[j] * ROOTS_INV[j], 1, MODS[j])
  {
    InverseOf(ROOTS[0], ROOTS_INV[0], MODS[0]);
    InverseOf(ROOTS[1], ROOTS_INV[1], MODS[1]);
    InverseOf(ROOTS[2], ROOTS_INV[2], MODS[2]);
    InverseOf(ROOTS[3], ROOTS_INV[3], MODS[3]);
    InverseOf(ROOTS[4], ROOTS_INV[4], MODS[4]);
  }

  lemma InverseOf(a: int, b: int, m: int)
    requires m > 1 && a * b % m == 1
    ensures Cong(a * b, 1, m)
  {
    DivModUnique(1, m, 0, 1);
  }
}
