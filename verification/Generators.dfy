/** The generators of the evaluation domains: powers of 7, as the field library of the source precomputes them. */
module Generators {
  import opened Field
  import opened Domain
  import opened Powers2
  import opened Division

  /** The odd part of P - 1, which is this number times 2^32. */
  const ODD_PART: nat := 0x73eda753299d7d483339d80809a1d80553bda402fffe5bfeffffffff

  /** The two largest prime factors of P - 1. */
  const FACTOR_A: nat := 906349
  const FACTOR_B: nat := 254760293

  /** The modulus is the group order of the curve: x^4 - x^2 + 1 for the curve's parameter x. */
  lemma ModulusOfCurve()
    ensures var x := -0xd201_0000_0001_0000; P == x * x * x * x - x * x + 1
  {}

  // ---------- Powers by their octal digits ----------

  lemma MulOfMods(x: nat, y: nat)
    ensures Mul(Mod(x), Mod(y)) == Mod(x * y)
  {
    hide Mod;
    MulOfMod(x, Mod(y));
    TimesIsProduct(x, Mod(y));
    TimesIsProduct(Mod(y), x);
    MulOfMod(y, Mod(x));
    ModTimes(y, x);
    TimesIsProduct(y, x);
  }

  lemma PowEight(a: Scalar)
    ensures Pow(a, 8) == Mod(a * a * a * a * a * a * a * a)
  {
    var b, c := a * a, a * a * a * a;
    hide Mul, Mod;
    ModOfScalar(a);
    MulOfMods(a, a);
    MulOfMods(b, b);
    MulOfMods(c, c);
    MulUnits(a);
    assert Pow(a, 1) == Mul(a, Pow(a, 0)) && Pow(a, 2) == Mul(a, Pow(a, 1));
    PowAdd(a, 2, 2);
    PowAdd(a, 4, 4);
    assert b * b == c && c * c == a * a * a * a * a * a * a * a;
  }

  lemma OctalPow(x: Scalar, e: nat, d: nat, c: Scalar, y: nat, f: nat)
    requires f == 8 * e + d && Pow(Pow(x, e), 8) == Mod(y) && Pow(x, d) == c
    ensures Pow(x, f) == Mod(y * c)
  {
    hide Mul, Mod, Pow;
    PowAdd(x, 8 * e, d);
    assert e * 8 == 8 * e;
    PowMul(x, e, 8);
    ModOfScalar(c);
    MulOfMods(y, c);
  }

  /** One octal digit d of an exponent: the eighth power, times x^d. */
  lemma OctalStep(x: Scalar, e: nat, d: nat, c: Scalar, a: Scalar, b: Scalar) returns (f: nat)
    requires Pow(x, e) == a && Pow(x, d) == c && a * a * a * a * a * a * a * a * c % P == b
    ensures f == 8 * e + d && Pow(x, f) == b
  {
    f := 8 * e + d;
    var y := a * a * a * a * a * a * a * a;
    assert Mod(y * c) == b;
    hide Mul, Mod, Pow;
    PowEight(a);
    OctalPow(x, e, d, c, y, f);
  }

  /** One more factor. */
  lemma NextPower(x: Scalar, e: nat, a: Scalar, b: Scalar)
    requires Pow(x, e) == a && a * x % P == b
    ensures Pow(x, e + 1) == b
  {
    assert Pow(x, e + 1) == Mul(x, Pow(x, e));
    hide Mul, Pow;
    MulComm(x, a);
    MulIsProduct(a, x);
  }

  lemma FirstPowers(x: Scalar)
    ensures Pow(x, 0) == 1 && Pow(x, 1) == x
  {
    assert Pow(x, 1) == Mul(x, Pow(x, 0));
    hide Mul;
    MulUnits(x);
  }

  // ---------- 7 to the odd part of P - 1, without its two largest factors ----------

  lemma PowersOfSeven2()
    ensures Pow(7, 2) == 0x31
  {
    FirstPowers(7);
    hide Pow;
    NextPower(7, 1, 0x7,
      0x31);
  }

  lemma PowersOfSeven3()
    ensures Pow(7, 3) == 0x157
  {
    PowersOfSeven2();
    hide Pow;
    NextPower(7, 2, 0x31,
      0x157);
  }

  lemma PowersOfSeven4()
    ensures Pow(7, 4) == 0x961
  {
    PowersOfSeven3();
    hide Pow;
    NextPower(7, 3, 0x157,
      0x961);
  }

  lemma PowersOfSeven5()
    ensures Pow(7, 5) == 0x41a7
  {
    PowersOfSeven4();
    hide Pow;
    NextPower(7, 4, 0x961,
      0x41a7);
  }

  lemma PowersOfSeven6()
    ensures Pow(7, 6) == 0x1cb91
  {
    PowersOfSeven5();
    hide Pow;
    NextPower(7, 5, 0x41a7,
      0x1cb91);
  }

  lemma PowersOfSeven7()
    ensures Pow(7, 7) == 0xc90f7
  {
    PowersOfSeven6();
    hide Pow;
    NextPower(7, 6, 0x1cb91,
      0xc90f7);
  }

  lemma PowersOfSeven()
    ensures Pow(7, 0) == 1 && Pow(7, 1) == 7
    ensures Pow(7, 2) == 0x31
    ensures Pow(7, 3) == 0x157
    ensures Pow(7, 4) == 0x961
    ensures Pow(7, 5) == 0x41a7
    ensures Pow(7, 6) == 0x1cb91
    ensures Pow(7, 7) == 0xc90f7
  {
    FirstPowers(7);
    hide Pow;
    PowersOfSeven2();
    PowersOfSeven3();
    PowersOfSeven4();
    PowersOfSeven5();
    PowersOfSeven6();
    PowersOfSeven7();
  }

  lemma Seven1(e: nat) returns (f: nat)
    requires Pow(7, e) == 0x1
    ensures f == 0x1000000 * e + 0x46a8e6
    ensures Pow(7, f) == 0x716c2de48a8c8fcdb8b58e07c6a4dccf295c9f674f63501171f38a0ddf36ae9d
  {
    PowersOfSeven();
    hide Pow;
    f := OctalStep(7, e, 2, 0x31,
      0x1,
      0x31);
    f := OctalStep(7, f, 1, 0x7,
      0x31,
      0xd39383266e87);
    f := OctalStep(7, f, 5, 0x41a7,
      0xd39383266e87,
      0x330cd859cfe0b80907e580c139c8ca85264d03e85b8b5e81334247c7d82bb23b);
    f := OctalStep(7, f, 2, 0x31,
      0x330cd859cfe0b80907e580c139c8ca85264d03e85b8b5e81334247c7d82bb23b,
      0x34238684d213d85033ec36f43aaa5a67a4f2a5f1462e78744f58c07bd1826693);
    f := OctalStep(7, f, 4, 0x961,
      0x34238684d213d85033ec36f43aaa5a67a4f2a5f1462e78744f58c07bd1826693,
      0x73586b2a22e0ae9995c78af704d4dc7ed708df001f721f47771d957de36961c7);
    f := OctalStep(7, f, 3, 0x157,
      0x73586b2a22e0ae9995c78af704d4dc7ed708df001f721f47771d957de36961c7,
      0x65453d72a3fb095e47166a0319f828c873e7e6e8e1934063d38b5a86d5084717);
    f := OctalStep(7, f, 4, 0x961,
      0x65453d72a3fb095e47166a0319f828c873e7e6e8e1934063d38b5a86d5084717,
      0x2f029d445f190bb2e9fee158e8250833e77dace3a5c0dddfa8353526a2677308);
    f := OctalStep(7, f, 6, 0x1cb91,
      0x2f029d445f190bb2e9fee158e8250833e77dace3a5c0dddfa8353526a2677308,
      0x716c2de48a8c8fcdb8b58e07c6a4dccf295c9f674f63501171f38a0ddf36ae9d);
  }

  lemma Seven2(e: nat) returns (f: nat)
    requires Pow(7, e) == 0x716c2de48a8c8fcdb8b58e07c6a4dccf295c9f674f63501171f38a0ddf36ae9d
    ensures f == 0x1000000 * e + 0x673b01
    ensures Pow(7, f) == 0x6af6ee65afe650825379516e9cd2116938f44749785d28de73514eee1bc4ed76
  {
    PowersOfSeven();
    hide Pow;
    f := OctalStep(7, e, 3, 0x157,
      0x716c2de48a8c8fcdb8b58e07c6a4dccf295c9f674f63501171f38a0ddf36ae9d,
      0x2a8cbbafd4b7306f2de0aeaaf34a5ece54ea184e1074f87c816a5dce115b85b);
    f := OctalStep(7, f, 1, 0x7,
      0x2a8cbbafd4b7306f2de0aeaaf34a5ece54ea184e1074f87c816a5dce115b85b,
      0x23f6a36ea096ed1557d26122e8ddcd18274e5866c1a7d5eaa0c80136b501894e);
    f := OctalStep(7, f, 6, 0x1cb91,
      0x23f6a36ea096ed1557d26122e8ddcd18274e5866c1a7d5eaa0c80136b501894e,
      0x712fbbc20378994b78b130c286ea752ee54025b58793b53cfa4dbfa6b309381e);
    f := OctalStep(7, f, 3, 0x157,
      0x712fbbc20378994b78b130c286ea752ee54025b58793b53cfa4dbfa6b309381e,
      0x17c46388abdf5308c3b641c17dc9f64e0bef3a120fc9373549f1f3abbcff554c);
    f := OctalStep(7, f, 5, 0x41a7,
      0x17c46388abdf5308c3b641c17dc9f64e0bef3a120fc9373549f1f3abbcff554c,
      0x66eb296434ef824a2e0b4d6fe56c18aae3bf3c5cf6d061ad6df9c15a14f46e17);
    f := OctalStep(7, f, 4, 0x961,
      0x66eb296434ef824a2e0b4d6fe56c18aae3bf3c5cf6d061ad6df9c15a14f46e17,
      0x18ae07289f1423bfe4e2d6fd96432c3a50ace7bc6e21d2f907d14d1ecac997e0);
    f := OctalStep(7, f, 0, 0x1,
      0x18ae07289f1423bfe4e2d6fd96432c3a50ace7bc6e21d2f907d14d1ecac997e0,
      0x68739c37c4e86487d8dca89c3622df3872e023d3cb66e5b3ee621bcc17a585e);
    f := OctalStep(7, f, 1, 0x7,
      0x68739c37c4e86487d8dca89c3622df3872e023d3cb66e5b3ee621bcc17a585e,
      0x6af6ee65afe650825379516e9cd2116938f44749785d28de73514eee1bc4ed76);
  }

  lemma Seven3(e: nat) returns (f: nat)
    requires Pow(7, e) == 0x6af6ee65afe650825379516e9cd2116938f44749785d28de73514eee1bc4ed76
    ensures f == 0x1000000 * e + 0x826876
    ensures Pow(7, f) == 0x550f6f6120940a0edd3abd2f5bae97b17225f68266123618875d15b41d744334
  {
    PowersOfSeven();
    hide Pow;
    f := OctalStep(7, e, 4, 0x961,
      0x6af6ee65afe650825379516e9cd2116938f44749785d28de73514eee1bc4ed76,
      0x2dc2e199d96fbe17081eaf72ad13319a5c74a49578414bd445237dc50689ad71);
    f := OctalStep(7, f, 0, 0x1,
      0x2dc2e199d96fbe17081eaf72ad13319a5c74a49578414bd445237dc50689ad71,
      0x19645bb5a8ff6c19dec084151a56823ddd566393cf3bfa5b7f1fa793ec84a2d0);
    f := OctalStep(7, f, 4, 0x961,
      0x19645bb5a8ff6c19dec084151a56823ddd566393cf3bfa5b7f1fa793ec84a2d0,
      0x5c0666072f2bd0149c2b39e426f90c3560ae83fd75e6e3fa37e59dae11193770);
    f := OctalStep(7, f, 6, 0x1cb91,
      0x5c0666072f2bd0149c2b39e426f90c3560ae83fd75e6e3fa37e59dae11193770,
      0x13b0cd7430335796da36dcfd6f08f65a45e7eb256ac6892ab637d67e6e75a6ae);
    f := OctalStep(7, f, 4, 0x961,
      0x13b0cd7430335796da36dcfd6f08f65a45e7eb256ac6892ab637d67e6e75a6ae,
      0x30c8ee82e6c6b5f9a8f958e6921a3139895781043fc1c097fce4fb2b700a437b);
    f := OctalStep(7, f, 1, 0x7,
      0x30c8ee82e6c6b5f9a8f958e6921a3139895781043fc1c097fce4fb2b700a437b,
      0xf598a0adcf5dcee4f8a8cba5ccb07678cb28f29d9bf5706212bbf18eaba1ce6);
    f := OctalStep(7, f, 6, 0x1cb91,
      0xf598a0adcf5dcee4f8a8cba5ccb07678cb28f29d9bf5706212bbf18eaba1ce6,
      0x5cbb0d4483afaee80c3d596fbd2df40974f198aba874a5c26b65fd0d967abcdc);
    f := OctalStep(7, f, 6, 0x1cb91,
      0x5cbb0d4483afaee80c3d596fbd2df40974f198aba874a5c26b65fd0d967abcdc,
      0x550f6f6120940a0edd3abd2f5bae97b17225f68266123618875d15b41d744334);
  }

  lemma Seven4(e: nat) returns (f: nat)
    requires Pow(7, e) == 0x550f6f6120940a0edd3abd2f5bae97b17225f68266123618875d15b41d744334
    ensures f == 0x1000000 * e + 0x18001
    ensures Pow(7, f) == 0xa915c5253ae3d6de82844c65f1fbce10dd31e62f6ad0aff62517871bd11d111
  {
    PowersOfSeven();
    hide Pow;
    f := OctalStep(7, e, 0, 0x1,
      0x550f6f6120940a0edd3abd2f5bae97b17225f68266123618875d15b41d744334,
      0x6f0c5a6aaa128eaa259db9063d1b0b83e1dc8d3105a427ee0821611da5118884);
    f := OctalStep(7, f, 0, 0x1,
      0x6f0c5a6aaa128eaa259db9063d1b0b83e1dc8d3105a427ee0821611da5118884,
      0x69264ab5cad7879857af49b8aa30401fac737933f6cae506ff0d9570c84132a0);
    f := OctalStep(7, f, 3, 0x157,
      0x69264ab5cad7879857af49b8aa30401fac737933f6cae506ff0d9570c84132a0,
      0x41c777436a3f711026ebeaf55d172f37620c62f7961b0cae24b829b411eb906d);
    f := OctalStep(7, f, 0, 0x1,
      0x41c777436a3f711026ebeaf55d172f37620c62f7961b0cae24b829b411eb906d,
      0x3d1f0f71caf3812760c199d4b07ba5831f7921212180095f2e8206f3413dd49f);
    f := OctalStep(7, f, 0, 0x1,
      0x3d1f0f71caf3812760c199d4b07ba5831f7921212180095f2e8206f3413dd49f,
      0x5a358eff85bbf105a65b8f382c9e3ea7a73508be1c9f8a52fc0caef409d02015);
    f := OctalStep(7, f, 0, 0x1,
      0x5a358eff85bbf105a65b8f382c9e3ea7a73508be1c9f8a52fc0caef409d02015,
      0x2fa92be55c078d1b2b27941fd94de29c6e221162a622d3bf6b73a4442c3ebbc);
    f := OctalStep(7, f, 0, 0x1,
      0x2fa92be55c078d1b2b27941fd94de29c6e221162a622d3bf6b73a4442c3ebbc,
      0x28e55df12a282ab40e19669f1642991192203e863ec4a466676f975138e4cc79);
    f := OctalStep(7, f, 1, 0x7,
      0x28e55df12a282ab40e19669f1642991192203e863ec4a466676f975138e4cc79,
      0xa915c5253ae3d6de82844c65f1fbce10dd31e62f6ad0aff62517871bd11d111);
  }

  lemma Seven5(e: nat) returns (f: nat)
    requires Pow(7, e) == 0xa915c5253ae3d6de82844c65f1fbce10dd31e62f6ad0aff62517871bd11d111
    ensures f == 0x1000000 * e + 0x3b017f
    ensures Pow(7, f) == 0x4252336f7c6ce07df7fb27f95fa4a25c660ae5009ae3476ab42d8542664c62ad
  {
    PowersOfSeven();
    hide Pow;
    f := OctalStep(7, e, 1, 0x7,
      0xa915c5253ae3d6de82844c65f1fbce10dd31e62f6ad0aff62517871bd11d111,
      0x470d31449a733f2f152df4fe7263f85224ac20128c2748365abcdb524d8885f9);
    f := OctalStep(7, f, 6, 0x1cb91,
      0x470d31449a733f2f152df4fe7263f85224ac20128c2748365abcdb524d8885f9,
      0x1dce8803c3427b2944406cee29bdb50951d5c1f508b2a34e0973bd61b6aaf39c);
    f := OctalStep(7, f, 6, 0x1cb91,
      0x1dce8803c3427b2944406cee29bdb50951d5c1f508b2a34e0973bd61b6aaf39c,
      0x123c559dac371c75367fcc571836903806ce79bb0e3bde41a0741c1a4b7dcb0a);
    f := OctalStep(7, f, 0, 0x1,
      0x123c559dac371c75367fcc571836903806ce79bb0e3bde41a0741c1a4b7dcb0a,
      0x33720838c1262595b0f2729d2ec117561075c366e66d7445565533009756b3f9);
    f := OctalStep(7, f, 0, 0x1,
      0x33720838c1262595b0f2729d2ec117561075c366e66d7445565533009756b3f9,
      0x56ad7dc991724109f1d32ada3e5cacc4f99d8b053a8eb4f5354c2147c4bbf11f);
    f := OctalStep(7, f, 5, 0x41a7,
      0x56ad7dc991724109f1d32ada3e5cacc4f99d8b053a8eb4f5354c2147c4bbf11f,
      0x61ba4713230e828c4adcf1b9bf20d190fd489aec2499821424b35ed37ee8c757);
    f := OctalStep(7, f, 7, 0xc90f7,
      0x61ba4713230e828c4adcf1b9bf20d190fd489aec2499821424b35ed37ee8c757,
      0x1a46a0b881904c7a62c833938c9fef7814539e872e4fdf3824dd560406dcbbd);
    f := OctalStep(7, f, 7, 0xc90f7,
      0x1a46a0b881904c7a62c833938c9fef7814539e872e4fdf3824dd560406dcbbd,
      0x4252336f7c6ce07df7fb27f95fa4a25c660ae5009ae3476ab42d8542664c62ad);
  }

  lemma Seven6(e: nat) returns (f: nat)
    requires Pow(7, e) == 0x4252336f7c6ce07df7fb27f95fa4a25c660ae5009ae3476ab42d8542664c62ad
    ensures f == 0x1000000 * e + 0xff96ff
    ensures Pow(7, f) == 0x26e8d281d3032252eae81d4c442e634a4e5900282f9ef5605081fb0754cdd243
  {
    PowersOfSeven();
    hide Pow;
    f := OctalStep(7, e, 7, 0xc90f7,
      0x4252336f7c6ce07df7fb27f95fa4a25c660ae5009ae3476ab42d8542664c62ad,
      0x5a314eb34de0f0ed8cf0fc53259b6897a6baeae06b3129e0281ce00c6e5dea75);
    f := OctalStep(7, f, 7, 0xc90f7,
      0x5a314eb34de0f0ed8cf0fc53259b6897a6baeae06b3129e0281ce00c6e5dea75,
      0xc8c3d173ca51473cc8389ffec8f58ee1a6e26b4d84dec18601cc7c3dc1d4d5b);
    f := OctalStep(7, f, 7, 0xc90f7,
      0xc8c3d173ca51473cc8389ffec8f58ee1a6e26b4d84dec18601cc7c3dc1d4d5b,
      0x7107489313ce03d637a5e4a256ff8127534955f3366b0ac37b52ae7968b03ba7);
    f := OctalStep(7, f, 1, 0x7,
      0x7107489313ce03d637a5e4a256ff8127534955f3366b0ac37b52ae7968b03ba7,
      0x255a13ffdc650e496dbb73e0e8682642880d94ae66255a391436e2438c6ea0a);
    f := OctalStep(7, f, 3, 0x157,
      0x255a13ffdc650e496dbb73e0e8682642880d94ae66255a391436e2438c6ea0a,
      0x3c68fe41694d7b13ba193d8139014f91f5bce324beefdc3ac002690e6dd911fd);
    f := OctalStep(7, f, 3, 0x157,
      0x3c68fe41694d7b13ba193d8139014f91f5bce324beefdc3ac002690e6dd911fd,
      0x3b6d2ea1eeb68e57be6a2419ee0ab577401418d5ecacbc33ec9cad130ca61360);
    f := OctalStep(7, f, 7, 0xc90f7,
      0x3b6d2ea1eeb68e57be6a2419ee0ab577401418d5ecacbc33ec9cad130ca61360,
      0x2fb38fcc8b8447f950ee8ec44a6eef421bc29e1a7ccae67250f5f97e69b77b65);
    f := OctalStep(7, f, 7, 0xc90f7,
      0x2fb38fcc8b8447f950ee8ec44a6eef421bc29e1a7ccae67250f5f97e69b77b65,
      0x26e8d281d3032252eae81d4c442e634a4e5900282f9ef5605081fb0754cdd243);
  }

  lemma Seven7(e: nat) returns (f: nat)
    requires Pow(7, e) == 0x26e8d281d3032252eae81d4c442e634a4e5900282f9ef5605081fb0754cdd243
    ensures f == 0x1000000 * e + 0xffffff
    ensures Pow(7, f) == 0x1634edf26d4df0596c29f654b2077ab202f4984de196e2401f69ca8a0814dcd8
  {
    PowersOfSeven();
    hide Pow;
    f := OctalStep(7, e, 7, 0xc90f7,
      0x26e8d281d3032252eae81d4c442e634a4e5900282f9ef5605081fb0754cdd243,
      0x38c8d0be7c8b7c91f5eb0752d86b577b5c6eda1bddcac0a51a577c9baeb1c6b5);
    f := OctalStep(7, f, 7, 0xc90f7,
      0x38c8d0be7c8b7c91f5eb0752d86b577b5c6eda1bddcac0a51a577c9baeb1c6b5,
      0x41dee9082a04dea016e59258f52b94bd908b30189863740a751d8cda18e65b43);
    f := OctalStep(7, f, 7, 0xc90f7,
      0x41dee9082a04dea016e59258f52b94bd908b30189863740a751d8cda18e65b43,
      0x5545c3c09e99934aa5bf863fb593aab579a6349183b7e6bb44ffa25787659b68);
    f := OctalStep(7, f, 7, 0xc90f7,
      0x5545c3c09e99934aa5bf863fb593aab579a6349183b7e6bb44ffa25787659b68,
      0x368e59cc10b09c320e20feea4a5384fc96d7b98674c63f7bb1a46d6cda9bc80d);
    f := OctalStep(7, f, 7, 0xc90f7,
      0x368e59cc10b09c320e20feea4a5384fc96d7b98674c63f7bb1a46d6cda9bc80d,
      0x705a6fe2e8d21812728aa2e851f3c2128aba72e37ddd7e96162964ee668a5a1d);
    f := OctalStep(7, f, 7, 0xc90f7,
      0x705a6fe2e8d21812728aa2e851f3c2128aba72e37ddd7e96162964ee668a5a1d,
      0x667e5ac0dfbcf1c3bfab64029b0338a8005df44d94c03dbb97f5747b2dbe9a97);
    f := OctalStep(7, f, 7, 0xc90f7,
      0x667e5ac0dfbcf1c3bfab64029b0338a8005df44d94c03dbb97f5747b2dbe9a97,
      0x506815ab2acd59df84a64857bd772e41c4768dfe2908131ea3fb580be0f8f91e);
    f := OctalStep(7, f, 7, 0xc90f7,
      0x506815ab2acd59df84a64857bd772e41c4768dfe2908131ea3fb580be0f8f91e,
      0x1634edf26d4df0596c29f654b2077ab202f4984de196e2401f69ca8a0814dcd8);
  }

  lemma Seven8(e: nat) returns (f: nat)
    requires Pow(7, e) == 0x1634edf26d4df0596c29f654b2077ab202f4984de196e2401f69ca8a0814dcd8
    ensures f == 0x200 * e + 0x1ff
    ensures Pow(7, f) == 0x4990c269a2732a1a8df97ebc2867f9c00a65e36640abb1e3c8a03d1d8b840691
  {
    PowersOfSeven();
    hide Pow;
    f := OctalStep(7, e, 7, 0xc90f7,
      0x1634edf26d4df0596c29f654b2077ab202f4984de196e2401f69ca8a0814dcd8,
      0x41ef3a44fc49d6a76574aa4a62c8634881288ca4fb31eb24846657587dd6e686);
    f := OctalStep(7, f, 7, 0xc90f7,
      0x41ef3a44fc49d6a76574aa4a62c8634881288ca4fb31eb24846657587dd6e686,
      0xa56418aa7afbf1d0a1e90a6608e6a1019ccc40a5efd187b388c637857e5e4e1);
    f := OctalStep(7, f, 7, 0xc90f7,
      0xa56418aa7afbf1d0a1e90a6608e6a1019ccc40a5efd187b388c637857e5e4e1,
      0x4990c269a2732a1a8df97ebc2867f9c00a65e36640abb1e3c8a03d1d8b840691);
  }

  /** 7 to that power. */
  const SEVENTH: Scalar := 0x4990c269a2732a1a8df97ebc2867f9c00a65e36640abb1e3c8a03d1d8b840691
  const REDUCED: nat := 0x8d51ccce760304d0ec0300027602ffff2dffffffffff

  lemma SeventhIsPower()
    ensures Pow(7, REDUCED) == SEVENTH && ODD_PART == REDUCED * (FACTOR_A * FACTOR_B)
  {
    FirstPowers(7);
    hide Pow;
    var e := 0;
    e := Seven1(e);
    e := Seven2(e);
    e := Seven3(e);
    e := Seven4(e);
    e := Seven5(e);
    e := Seven6(e);
    e := Seven7(e);
    e := Seven8(e);
    assert e == REDUCED;
  }

  // ---------- The two factors ----------

  lemma PowersOfSeventh2()
    ensures Pow(SEVENTH, 2) == 0x6c665f894b4c21f0ea502d24f11ade6f53ac836673fd89681722ab68f86192d
  {
    FirstPowers(SEVENTH);
    hide Pow;
    NextPower(SEVENTH, 1, 0x4990c269a2732a1a8df97ebc2867f9c00a65e36640abb1e3c8a03d1d8b840691,
      0x6c665f894b4c21f0ea502d24f11ade6f53ac836673fd89681722ab68f86192d);
  }

  lemma PowersOfSeventh3()
    ensures Pow(SEVENTH, 3) == 0x2b880b7185dc8b629d30a525479732e6d822fcec6cbbeb8b73a6f5c6bab22d9e
  {
    PowersOfSeventh2();
    hide Pow;
    NextPower(SEVENTH, 2, 0x6c665f894b4c21f0ea502d24f11ade6f53ac836673fd89681722ab68f86192d,
      0x2b880b7185dc8b629d30a525479732e6d822fcec6cbbeb8b73a6f5c6bab22d9e);
  }

  lemma PowersOfSeventh4()
    ensures Pow(SEVENTH, 4) == 0xfd5355bc9395c4128497c49a7c8dceeb27086976b7a2f579a819f778deaf614
  {
    PowersOfSeventh3();
    hide Pow;
    NextPower(SEVENTH, 3, 0x2b880b7185dc8b629d30a525479732e6d822fcec6cbbeb8b73a6f5c6bab22d9e,
      0xfd5355bc9395c4128497c49a7c8dceeb27086976b7a2f579a819f778deaf614);
  }

  lemma PowersOfSeventh5()
    ensures Pow(SEVENTH, 5) == 0x67fa7f5ae82d6055836d338aafc5809306e5b1675994d6226350fa34f71b4df3
  {
    PowersOfSeventh4();
    hide Pow;
    NextPower(SEVENTH, 4, 0xfd5355bc9395c4128497c49a7c8dceeb27086976b7a2f579a819f778deaf614,
      0x67fa7f5ae82d6055836d338aafc5809306e5b1675994d6226350fa34f71b4df3);
  }

  lemma PowersOfSeventh6()
    ensures Pow(SEVENTH, 6) == 0x123958c99deedbd0bfaee4da646d9a371545cc29cc83ebdcd380092b15c5bfbb
  {
    PowersOfSeventh5();
    hide Pow;
    NextPower(SEVENTH, 5, 0x67fa7f5ae82d6055836d338aafc5809306e5b1675994d6226350fa34f71b4df3,
      0x123958c99deedbd0bfaee4da646d9a371545cc29cc83ebdcd380092b15c5bfbb);
  }

  lemma PowersOfSeventh7()
    ensures Pow(SEVENTH, 7) == 0x2bb905fed5c97cb6042b22d57dead7bcab36e2566421a607e0dce8493492f0c8
  {
    PowersOfSeventh6();
    hide Pow;
    NextPower(SEVENTH, 6, 0x123958c99deedbd0bfaee4da646d9a371545cc29cc83ebdcd380092b15c5bfbb,
      0x2bb905fed5c97cb6042b22d57dead7bcab36e2566421a607e0dce8493492f0c8);
  }

  lemma PowersOfSeventh()
    ensures Pow(SEVENTH, 0) == 1 && Pow(SEVENTH, 1) == SEVENTH
    ensures Pow(SEVENTH, 2) == 0x6c665f894b4c21f0ea502d24f11ade6f53ac836673fd89681722ab68f86192d
    ensures Pow(SEVENTH, 3) == 0x2b880b7185dc8b629d30a525479732e6d822fcec6cbbeb8b73a6f5c6bab22d9e
    ensures Pow(SEVENTH, 4) == 0xfd5355bc9395c4128497c49a7c8dceeb27086976b7a2f579a819f778deaf614
    ensures Pow(SEVENTH, 5) == 0x67fa7f5ae82d6055836d338aafc5809306e5b1675994d6226350fa34f71b4df3
    ensures Pow(SEVENTH, 6) == 0x123958c99deedbd0bfaee4da646d9a371545cc29cc83ebdcd380092b15c5bfbb
    ensures Pow(SEVENTH, 7) == 0x2bb905fed5c97cb6042b22d57dead7bcab36e2566421a607e0dce8493492f0c8
  {
    FirstPowers(SEVENTH);
    hide Pow;
    PowersOfSeventh2();
    PowersOfSeventh3();
    PowersOfSeventh4();
    PowersOfSeventh5();
    PowersOfSeventh6();
    PowersOfSeventh7();
  }

  /** With one of the factors. */
  const WITHOUT_A: Scalar := 0x259c648ab6427a7267f5ba9a418c0247f9c26ddbec063665b45a146e7753d490
  const WITHOUT_B: Scalar := 0xb6cb2577cbc81b092384d6e946845089f0fb3f21c8c0684df5dd55a2d4431

  lemma SeventhToB(e: nat) returns (f: nat)
    requires Pow(SEVENTH, e) == 0x1
    ensures f == 0x40000000 * e + 0xf2f5565
    ensures Pow(SEVENTH, f) == 0x259c648ab6427a7267f5ba9a418c0247f9c26ddbec063665b45a146e7753d490
  {
    PowersOfSeventh();
    hide Pow;
    f := OctalStep(SEVENTH, e, 1, 0x4990c269a2732a1a8df97ebc2867f9c00a65e36640abb1e3c8a03d1d8b840691,
      0x1,
      0x4990c269a2732a1a8df97ebc2867f9c00a65e36640abb1e3c8a03d1d8b840691);
    f := OctalStep(SEVENTH, f, 7, 0x2bb905fed5c97cb6042b22d57dead7bcab36e2566421a607e0dce8493492f0c8,
      0x4990c269a2732a1a8df97ebc2867f9c00a65e36640abb1e3c8a03d1d8b840691,
      0x531ff0a420ee4a8d0c29cbc56b415103c79e80d8fe7be8a78e1920b1891be2f);
    f := OctalStep(SEVENTH, f, 1, 0x4990c269a2732a1a8df97ebc2867f9c00a65e36640abb1e3c8a03d1d8b840691,
      0x531ff0a420ee4a8d0c29cbc56b415103c79e80d8fe7be8a78e1920b1891be2f,
      0x140cb2070f23116d93eafdc004e436072a5e93ea70e05084e34975b9a8a4357f);
    f := OctalStep(SEVENTH, f, 3, 0x2b880b7185dc8b629d30a525479732e6d822fcec6cbbeb8b73a6f5c6bab22d9e,
      0x140cb2070f23116d93eafdc004e436072a5e93ea70e05084e34975b9a8a4357f,
      0x1e2da3818552c012590a9c9fbc56ba6bc3eeaa12d743d5e8663e7d200e5fb5b6);
    f := OctalStep(SEVENTH, f, 6, 0x123958c99deedbd0bfaee4da646d9a371545cc29cc83ebdcd380092b15c5bfbb,
      0x1e2da3818552c012590a9c9fbc56ba6bc3eeaa12d743d5e8663e7d200e5fb5b6,
      0xe962149fce30ac16a58e5472076f11af27aad89cd68e174ab25beaa644e7dd4);
    f := OctalStep(SEVENTH, f, 5, 0x67fa7f5ae82d6055836d338aafc5809306e5b1675994d6226350fa34f71b4df3,
      0xe962149fce30ac16a58e5472076f11af27aad89cd68e174ab25beaa644e7dd4,
      0x286ac0610629c4ae2fd82a27f5d419c205eb59de158f5242e75abe3e899c346e);
    f := OctalStep(SEVENTH, f, 2, 0x6c665f894b4c21f0ea502d24f11ade6f53ac836673fd89681722ab68f86192d,
      0x286ac0610629c4ae2fd82a27f5d419c205eb59de158f5242e75abe3e899c346e,
      0x64d7137b5029eaac0a23fe84fd576cea03eac621d61106bd0b3353a81d46bdf7);
    f := OctalStep(SEVENTH, f, 5, 0x67fa7f5ae82d6055836d338aafc5809306e5b1675994d6226350fa34f71b4df3,
      0x64d7137b5029eaac0a23fe84fd576cea03eac621d61106bd0b3353a81d46bdf7,
      0x3c5537add557ef18ce2b8b2f1eb1ca02f1d9a90d5f292d6d93dededbe9aadd01);
    f := OctalStep(SEVENTH, f, 4, 0xfd5355bc9395c4128497c49a7c8dceeb27086976b7a2f579a819f778deaf614,
      0x3c5537add557ef18ce2b8b2f1eb1ca02f1d9a90d5f292d6d93dededbe9aadd01,
      0x60af275e59e94f5deba9a95fc10822cf7767351854bb04bccf8efd41b993e424);
    f := OctalStep(SEVENTH, f, 5, 0x67fa7f5ae82d6055836d338aafc5809306e5b1675994d6226350fa34f71b4df3,
      0x60af275e59e94f5deba9a95fc10822cf7767351854bb04bccf8efd41b993e424,
      0x259c648ab6427a7267f5ba9a418c0247f9c26ddbec063665b45a146e7753d490);
  }

  lemma SeventhToA(e: nat) returns (f: nat)
    requires Pow(SEVENTH, e) == 0x1
    ensures f == 0x200000 * e + 0xdd46d
    ensures Pow(SEVENTH, f) == 0xb6cb2577cbc81b092384d6e946845089f0fb3f21c8c0684df5dd55a2d4431
  {
    PowersOfSeventh();
    hide Pow;
    f := OctalStep(SEVENTH, e, 3, 0x2b880b7185dc8b629d30a525479732e6d822fcec6cbbeb8b73a6f5c6bab22d9e,
      0x1,
      0x2b880b7185dc8b629d30a525479732e6d822fcec6cbbeb8b73a6f5c6bab22d9e);
    f := OctalStep(SEVENTH, f, 3, 0x2b880b7185dc8b629d30a525479732e6d822fcec6cbbeb8b73a6f5c6bab22d9e,
      0x2b880b7185dc8b629d30a525479732e6d822fcec6cbbeb8b73a6f5c6bab22d9e,
      0x26f25da2804e40ab07ae66d5464eba0e86ea07c75b99690bec03ca6137885f33);
    f := OctalStep(SEVENTH, f, 5, 0x67fa7f5ae82d6055836d338aafc5809306e5b1675994d6226350fa34f71b4df3,
      0x26f25da2804e40ab07ae66d5464eba0e86ea07c75b99690bec03ca6137885f33,
      0x30331ecff48a891b25d357c0df82ccaa4482dd1bb12adb0012323267415926f1);
    f := OctalStep(SEVENTH, f, 2, 0x6c665f894b4c21f0ea502d24f11ade6f53ac836673fd89681722ab68f86192d,
      0x30331ecff48a891b25d357c0df82ccaa4482dd1bb12adb0012323267415926f1,
      0x15419fa79dc03f0fb13114e628ecce5e28a740488545d1ed597db015e7ae6883);
    f := OctalStep(SEVENTH, f, 1, 0x4990c269a2732a1a8df97ebc2867f9c00a65e36640abb1e3c8a03d1d8b840691,
      0x15419fa79dc03f0fb13114e628ecce5e28a740488545d1ed597db015e7ae6883,
      0x6c21af733655cae350962b698d1bc4a00be8709721aebf3d6b992d6d0131d23);
    f := OctalStep(SEVENTH, f, 5, 0x67fa7f5ae82d6055836d338aafc5809306e5b1675994d6226350fa34f71b4df3,
      0x6c21af733655cae350962b698d1bc4a00be8709721aebf3d6b992d6d0131d23,
      0x69eb2c707536332557d6a66bea07741c5b4d83bbdb6da1c24875ee380242f64d);
    f := OctalStep(SEVENTH, f, 5, 0x67fa7f5ae82d6055836d338aafc5809306e5b1675994d6226350fa34f71b4df3,
      0x69eb2c707536332557d6a66bea07741c5b4d83bbdb6da1c24875ee380242f64d,
      0xb6cb2577cbc81b092384d6e946845089f0fb3f21c8c0684df5dd55a2d4431);
  }

  lemma PowersWithoutA2()
    ensures Pow(WITHOUT_A, 2) == 0x32738d864785b645c10280c1d311048f75c25beb6f9c6838a5c76b83809b2662
  {
    FirstPowers(WITHOUT_A);
    hide Pow;
    NextPower(WITHOUT_A, 1, 0x259c648ab6427a7267f5ba9a418c0247f9c26ddbec063665b45a146e7753d490,
      0x32738d864785b645c10280c1d311048f75c25beb6f9c6838a5c76b83809b2662);
  }

  lemma PowersWithoutA3()
    ensures Pow(WITHOUT_A, 3) == 0x4b6378f467d92e2178dc2cf6f032f2de171ca6e52b60390e738286b98b217a71
  {
    PowersWithoutA2();
    hide Pow;
    NextPower(WITHOUT_A, 2, 0x32738d864785b645c10280c1d311048f75c25beb6f9c6838a5c76b83809b2662,
      0x4b6378f467d92e2178dc2cf6f032f2de171ca6e52b60390e738286b98b217a71);
  }

  lemma PowersWithoutA4()
    ensures Pow(WITHOUT_A, 4) == 0x506dfb26500900079de6d4ed1f10ade80200c28277e1e8372a50958b81985762
  {
    PowersWithoutA3();
    hide Pow;
    NextPower(WITHOUT_A, 3, 0x4b6378f467d92e2178dc2cf6f032f2de171ca6e52b60390e738286b98b217a71,
      0x506dfb26500900079de6d4ed1f10ade80200c28277e1e8372a50958b81985762);
  }

  lemma PowersWithoutA5()
    ensures Pow(WITHOUT_A, 5) == 0x3016b7c383c5f6a400e65180e49ff930444d0e716d17ec525bf1ff9b376b2dc6
  {
    PowersWithoutA4();
    hide Pow;
    NextPower(WITHOUT_A, 4, 0x506dfb26500900079de6d4ed1f10ade80200c28277e1e8372a50958b81985762,
      0x3016b7c383c5f6a400e65180e49ff930444d0e716d17ec525bf1ff9b376b2dc6);
  }

  lemma PowersWithoutA()
    ensures Pow(WITHOUT_A, 0) == 1 && Pow(WITHOUT_A, 1) == WITHOUT_A
    ensures Pow(WITHOUT_A, 2) == 0x32738d864785b645c10280c1d311048f75c25beb6f9c6838a5c76b83809b2662
    ensures Pow(WITHOUT_A, 3) == 0x4b6378f467d92e2178dc2cf6f032f2de171ca6e52b60390e738286b98b217a71
    ensures Pow(WITHOUT_A, 4) == 0x506dfb26500900079de6d4ed1f10ade80200c28277e1e8372a50958b81985762
    ensures Pow(WITHOUT_A, 5) == 0x3016b7c383c5f6a400e65180e49ff930444d0e716d17ec525bf1ff9b376b2dc6
  {
    FirstPowers(WITHOUT_A);
    hide Pow;
    PowersWithoutA2();
    PowersWithoutA3();
    PowersWithoutA4();
    PowersWithoutA5();
  }

  lemma RootFromA(e: nat) returns (f: nat)
    requires Pow(WITHOUT_A, e) == 0x1
    ensures f == 0x200000 * e + 0xdd46d
    ensures Pow(WITHOUT_A, f) == 0x16a2a19edfe81f20d09b681922c813b4b63683508c2280b93829971f439f0d2b
  {
    PowersWithoutA();
    hide Pow;
    f := OctalStep(WITHOUT_A, e, 3, 0x4b6378f467d92e2178dc2cf6f032f2de171ca6e52b60390e738286b98b217a71,
      0x1,
      0x4b6378f467d92e2178dc2cf6f032f2de171ca6e52b60390e738286b98b217a71);
    f := OctalStep(WITHOUT_A, f, 3, 0x4b6378f467d92e2178dc2cf6f032f2de171ca6e52b60390e738286b98b217a71,
      0x4b6378f467d92e2178dc2cf6f032f2de171ca6e52b60390e738286b98b217a71,
      0x2cd3f6e28660ddb7215ea62f3bfaf7adeb3f6c993775cc4c3ed2affb01ca5c22);
    f := OctalStep(WITHOUT_A, f, 5, 0x3016b7c383c5f6a400e65180e49ff930444d0e716d17ec525bf1ff9b376b2dc6,
      0x2cd3f6e28660ddb7215ea62f3bfaf7adeb3f6c993775cc4c3ed2affb01ca5c22,
      0x42f8b80070214904a202900c9c2ce6763b3e779bb7d6c1688ba39bbb8100fa16);
    f := OctalStep(WITHOUT_A, f, 2, 0x32738d864785b645c10280c1d311048f75c25beb6f9c6838a5c76b83809b2662,
      0x42f8b80070214904a202900c9c2ce6763b3e779bb7d6c1688ba39bbb8100fa16,
      0x4976637096863b1a9a137d684126575108e3941fb3663edc9161544210acf15c);
    f := OctalStep(WITHOUT_A, f, 1, 0x259c648ab6427a7267f5ba9a418c0247f9c26ddbec063665b45a146e7753d490,
      0x4976637096863b1a9a137d684126575108e3941fb3663edc9161544210acf15c,
      0x3ce5483804282b81e61a77ddd2d0dba5b82ba3b96cbaf3092cf497a6666b0762);
    f := OctalStep(WITHOUT_A, f, 5, 0x3016b7c383c5f6a400e65180e49ff930444d0e716d17ec525bf1ff9b376b2dc6,
      0x3ce5483804282b81e61a77ddd2d0dba5b82ba3b96cbaf3092cf497a6666b0762,
      0x1651d84410f451d501b5037c2e448c79d503dd257f431cc601a1086f8cd9e4ed);
    f := OctalStep(WITHOUT_A, f, 5, 0x3016b7c383c5f6a400e65180e49ff930444d0e716d17ec525bf1ff9b376b2dc6,
      0x1651d84410f451d501b5037c2e448c79d503dd257f431cc601a1086f8cd9e4ed,
      0x16a2a19edfe81f20d09b681922c813b4b63683508c2280b93829971f439f0d2b);
  }

  lemma FactorsOfRoot()
    ensures Pow(SEVENTH, FACTOR_A) == WITHOUT_B && Pow(SEVENTH, FACTOR_B) == WITHOUT_A
    ensures Pow(WITHOUT_A, FACTOR_A) == TWO_ADIC_ROOT
  {
    FirstPowers(SEVENTH);
    FirstPowers(WITHOUT_A);
    hide Pow;
    var a := SeventhToA(0);
    var b := SeventhToB(0);
    var c := RootFromA(0);
  }

  lemma RootIsPowerOfSeven()
    ensures Pow(7, ODD_PART) == TWO_ADIC_ROOT && P - 1 == ODD_PART * 0x1_0000_0000
  {
    SeventhIsPower();
    FactorsOfRoot();
    hide Mul, Pow, TWO_ADIC_ROOT, SEVENTH, WITHOUT_A, WITHOUT_B;
    PowMul(SEVENTH, FACTOR_B, FACTOR_A);
    PowMul(7, REDUCED, FACTOR_B * FACTOR_A);
  }

  // ---------- The domains ----------

  lemma QuotientOfProducts(p: nat, t: nat, a: nat, b: nat, w: nat)
    requires p == t * w && w == a * b && a > 0
    ensures p / a == t * b >= 0
  {
    assert t * (a * b) == (t * b) * a;
    QuotientOf(p, a, t * b);
  }

  lemma {:induction false} Pow2Sum(j: nat, k: nat)
    ensures Pow2(j + k) == Pow2(j) * Pow2(k)
  {
    if j > 0 {
      Pow2Sum(j - 1, k);
      MulTwice(Pow2(j - 1), Pow2(k));
    }
  }

  /** The root of order 2^32, squared until it has order 2^k. */
  lemma RootOfOrder(k: nat)
    requires k <= 32
    ensures 0 <= (P - 1) / Pow2(k)
    ensures SquareTimes(TWO_ADIC_ROOT, 32 - k) == Pow(7, (P - 1) / Pow2(k))
  {
    var p, w := P - 1, 0x1_0000_0000;
    RootIsPowerOfSeven();
    Pow2Of32();
    Pow2Sum(k, 32 - k);
    hide *;
    QuotientOfProducts(p, ODD_PART, Pow2(k), Pow2(32 - k), w);
    SquareTimesIsPow(TWO_ADIC_ROOT, 32 - k);
    PowMul(7, ODD_PART, Pow2(32 - k));
  }

  /** The root of unity of an order that divides P - 1. */
  function Root(size: nat): Scalar
    requires size > 0
  {
    QuotientBounds(P - 1, size);
    Pow(7, (P - 1) / size)
  }

  /** A domain exists exactly for up to 2^32 points. It has the least power of two of them that is enough, and its
      generator is 7 to the power of (P - 1) / size. */
  lemma DomainIsExactly(n: nat)
    ensures NewDomain(n).Some? <==> n <= 0x1_0000_0000
    ensures NewDomain(n).Some? ==>
      var d := NewDomain(n).value;
      && IsPow2(d.size) && n <= d.size <= 0x1_0000_0000 && (d.size > 1 ==> d.size / 2 < n)
      && 0 <= (P - 1) / d.size && d.gen == Pow(7, (P - 1) / d.size)
  {
    NextPow2IsLeast(n);
    Pow2Of32();
    if n <= 0x1_0000_0000 {
      DomainExists(n);
    }
    if NewDomain(n).Some? {
      var k := Log2(NextPow2(n));
      DomainUnfolds(n, k);
      hide *;
      Pow2Monotone(k, 32);
      RootOfOrder(k);
    }
  }

  lemma DomainOfSize(size: nat)
    requires IsPow2(size) && NewDomain(size).Some?
    ensures size > 0 && NewDomain(size).value == Domain(size, Root(size))
  {
    DomainIsExactly(size);
    NextPow2OfPow2(size);
    Log2IsInverse(size);
    DomainUnfolds(size, Log2(size));
    hide NewDomain, IsPow2, Log2, NextPow2, Pow, Mul;
  }

  lemma DomainUnfolds(n: nat, k: nat)
    requires NewDomain(n).Some? && IsPow2(NextPow2(n)) && k == Log2(NextPow2(n))
    ensures k <= 32
    ensures NewDomain(n).value == Domain(Pow2(k), SquareTimes(TWO_ADIC_ROOT, 32 - k)) && Pow2(k) == NextPow2(n)
  {
    Log2IsInverse(NextPow2(n));
    hide SquareTimes, TWO_ADIC_ROOT;
  }
}
