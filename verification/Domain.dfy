/** The radix-2 evaluation domains of the BLS12-381 scalar field, and `fft` / `ifft` on them as mathematical
    transforms of the resized input. */
module Domain {
  import opened Results
  import opened Field
  import opened Poly
  import opened Powers2

  const TWO_ADICITY: nat := 32

  /** 7^((P - 1) / 2^32), the field's root of unity of order 2^32. */
  const TWO_ADIC_ROOT: Scalar := 0x16a2a19edfe81f20d09b681922c813b4b63683508c2280b93829971f439f0d2b

  datatype Domain = Domain(size: nat, gen: Scalar)

  function SquareTimes(a: Scalar, k: nat): Scalar
    decreases k
  {
    if k == 0 then a else SquareTimes(Mul(a, a), k - 1)
  }

  /** `EvaluationDomain::new`: rounds the size up to a power of two, and fails beyond 2^32. */
  function NewDomain(n: nat): Option<Domain> {
    NextPow2IsLeast(n);
    var k := Log2(NextPow2(n));
    if k > TWO_ADICITY then None else Some(Domain(NextPow2(n), SquareTimes(TWO_ADIC_ROOT, TWO_ADICITY - k)))
  }

  /** `Vec::resize` with zeros: cuts what is too long and pads what is too short. */
  function Resize(c: seq<Scalar>, n: nat): (r: seq<Scalar>)
    ensures |r| == n
  {
    if |c| >= n then c[..n] else c + Fill(n - |c|, 0)
  }

  function Fft(d: Domain, c: seq<Scalar>): (e: seq<Scalar>)
    ensures |e| == d.size
  {
    Dft(Resize(c, d.size), d.gen, d.size)
  }

  function Ifft(d: Domain, e: seq<Scalar>): (c: seq<Scalar>)
    ensures |c| == d.size
  {
    InverseDft(Resize(e, d.size), d.gen)
  }

  /** What makes a domain usable: a generator of exact order `size`, none of whose cosets by 5 meets the domain. */
  ghost predicate ValidDomain(d: Domain) {
    && IsPow2(d.size) && d.size < P
    && HasOrder(d.gen, d.size)
    && Pow(5, d.size) != 1
  }

  // ---------- Facts about the two constants ----------

  lemma SquareOnce(a: Scalar, b: Scalar, k: nat)
    requires a * a % P == b
    ensures SquareTimes(a, k + 1) == SquareTimes(b, k)
    ensures k == 0 ==> SquareTimes(a, k + 1) == b
  {
    hide Mul;
    MulIsProduct(a, a);
  }

  /** The root squared 31 times is -1, so its order is exactly 2^32. */
  lemma RootSquaredIsMinusOne()
    ensures SquareTimes(TWO_ADIC_ROOT, 31) == P - 1
  {
    hide SquareTimes;
    SquareOnce(0x16a2a19edfe81f20d09b681922c813b4b63683508c2280b93829971f439f0d2b,
      0x4b5371495990693fad1715b02e5713b5f070bb00e28a193d63e7cb4906ffc93f, 30);
    SquareOnce(0x4b5371495990693fad1715b02e5713b5f070bb00e28a193d63e7cb4906ffc93f,
      0x2c6d4e4511657e1e1339a815da8b398fed3a181fabb30adc694341f608c9dd56, 29);
    SquareOnce(0x2c6d4e4511657e1e1339a815da8b398fed3a181fabb30adc694341f608c9dd56,
      0xc83ea7744bf1bee8da40c1ef2bb459884d37b826214abc6474650359d8e211b, 28);
    SquareOnce(0xc83ea7744bf1bee8da40c1ef2bb459884d37b826214abc6474650359d8e211b,
      0x52dd465e2f09425699e276b571905a7d6558e9e3f6ac7b41d7b688830a4f2089, 27);
    SquareOnce(0x52dd465e2f09425699e276b571905a7d6558e9e3f6ac7b41d7b688830a4f2089,
      0x23397a9300f8f98bece8ea224f31d25db94f1101b1d7a628e2d0a7869f0319ed, 26);
    SquareOnce(0x23397a9300f8f98bece8ea224f31d25db94f1101b1d7a628e2d0a7869f0319ed,
      0xa0a77a3b1980c0d116168bffbedc11d02c8118402867ddc531a11a0d2d75182, 25);
    SquareOnce(0xa0a77a3b1980c0d116168bffbedc11d02c8118402867ddc531a11a0d2d75182,
      0x19fe632fd3287390454dc1edc61a1a3c0ba12bb3da64ca5ce32ef844e11a51e, 24);
    SquareOnce(0x19fe632fd3287390454dc1edc61a1a3c0ba12bb3da64ca5ce32ef844e11a51e,
      0x291cf6d68823e6876e0bcd91ee76273072cf6a8029b7d7bc92cf4deb77bd779c, 23);
    SquareOnce(0x291cf6d68823e6876e0bcd91ee76273072cf6a8029b7d7bc92cf4deb77bd779c,
      0x73560252aa0655b25121af06a3b51e3cc631ffb2585a72db5616c57de0ec9eae, 22);
    SquareOnce(0x73560252aa0655b25121af06a3b51e3cc631ffb2585a72db5616c57de0ec9eae,
      0xabe6a5e5abcaa32f2d38f10fbb8d1bbe08fec7c86389beec6e7a6ffb08e3363, 21);
    SquareOnce(0xabe6a5e5abcaa32f2d38f10fbb8d1bbe08fec7c86389beec6e7a6ffb08e3363,
      0x47c8b5817018af4fc70d0874b0691d4e46b3105f04db5844cd3979122d3ea03a, 20);
    SquareOnce(0x47c8b5817018af4fc70d0874b0691d4e46b3105f04db5844cd3979122d3ea03a,
      0x3e1c54bcb947035a57a6e07cb98de4a2f69e02d265e09d9fece7e0e39898d4b, 19);
    SquareOnce(0x3e1c54bcb947035a57a6e07cb98de4a2f69e02d265e09d9fece7e0e39898d4b,
      0x520e587a724a6955df625e80d0adef90ad8e16e84419c750194e8c62ecb38d9d, 18);
    SquareOnce(0x520e587a724a6955df625e80d0adef90ad8e16e84419c750194e8c62ecb38d9d,
      0x2d3056a530794f01652f717ae1c34bb0bb97a3bf30ce40fd6f421a7d8ef674fb, 17);
    SquareOnce(0x2d3056a530794f01652f717ae1c34bb0bb97a3bf30ce40fd6f421a7d8ef674fb,
      0x224262332d8acbf4473a2eef772c33d6cd7f2bd6d0711b7d08692405f3b70f10, 16);
    SquareOnce(0x224262332d8acbf4473a2eef772c33d6cd7f2bd6d0711b7d08692405f3b70f10,
      0x2155379d12180caa88f39a78f1aeb57867a665ae1fcadc91d7118f85cd96b8ad, 15);
    SquareOnce(0x2155379d12180caa88f39a78f1aeb57867a665ae1fcadc91d7118f85cd96b8ad,
      0x3291357ee558b50d483405417a0cbe39c8d5f51db3f32699fbd047e11279bb6e, 14);
    SquareOnce(0x3291357ee558b50d483405417a0cbe39c8d5f51db3f32699fbd047e11279bb6e,
      0x56624634b500a166dc86b01c0d477fa6ae4622f6a9152435034d2ff22a5ad9e1, 13);
    SquareOnce(0x56624634b500a166dc86b01c0d477fa6ae4622f6a9152435034d2ff22a5ad9e1,
      0x485d512737b1da3d2ccddea2972e89ed146b58bc434906ac6fdd00bfc78c8967, 12);
    SquareOnce(0x485d512737b1da3d2ccddea2972e89ed146b58bc434906ac6fdd00bfc78c8967,
      0x564c0a11a0f704f4fc3e8acfe0f8245f0ad1347b378fbf96e206da11a5d36306, 11);
    SquareOnce(0x564c0a11a0f704f4fc3e8acfe0f8245f0ad1347b378fbf96e206da11a5d36306,
      0x6d031f1b5c49c83409f1ca610a08f16655ea6811be9c622d4a838b5d59cd79e5, 10);
    SquareOnce(0x6d031f1b5c49c83409f1ca610a08f16655ea6811be9c622d4a838b5d59cd79e5,
      0x325db5c3debf77a18f4de02c0f776af3ea437f9626fc085e3c28d666a5c2d854, 9);
    SquareOnce(0x325db5c3debf77a18f4de02c0f776af3ea437f9626fc085e3c28d666a5c2d854,
      0x95166525526a65439feec240d80689fd697168a3a6000fe4541b8ff2ee0434e, 8);
    SquareOnce(0x95166525526a65439feec240d80689fd697168a3a6000fe4541b8ff2ee0434e,
      0x4f9b4098e2e9f12e6b368121ac0cf4ad0a0865a899e8deff4935bd2f817f694b, 7);
    SquareOnce(0x4f9b4098e2e9f12e6b368121ac0cf4ad0a0865a899e8deff4935bd2f817f694b,
      0x6898111413588742b7c68b4d7fdd60d098d0caac87f5713c5130c2c1660125be, 6);
    SquareOnce(0x6898111413588742b7c68b4d7fdd60d098d0caac87f5713c5130c2c1660125be,
      0x45af6345ec055e4d14a1e27164d8fdbd2d967f4be2f951558140d032f0a9ee53, 5);
    SquareOnce(0x45af6345ec055e4d14a1e27164d8fdbd2d967f4be2f951558140d032f0a9ee53,
      0x50e0903a157988bab4bcd40e22f55448bf6e88fb4c38fb8a360c60997369df4e, 4);
    SquareOnce(0x50e0903a157988bab4bcd40e22f55448bf6e88fb4c38fb8a360c60997369df4e,
      0x20b1ce9140267af9dd1c0af834cec32c17beb312f20b6f7653ea61d87742bcce, 3);
    SquareOnce(0x20b1ce9140267af9dd1c0af834cec32c17beb312f20b6f7653ea61d87742bcce,
      0x345766f603fa66e78c0625cd70d77ce2b38b21c28713b7007228fd3397743f7a, 2);
    SquareOnce(0x345766f603fa66e78c0625cd70d77ce2b38b21c28713b7007228fd3397743f7a,
      0x8d51ccce760304d0ec030002760300000001000000000000, 1);
    SquareOnce(0x8d51ccce760304d0ec030002760300000001000000000000,
      0x73eda753299d7d483339d80809a1d80553bda402fffe5bfeffffffff00000000, 0);
  }

  lemma FiveSquared16Times()
    ensures SquareTimes(5, 32)
      == SquareTimes(0x46f47753f3bb12acf1efb45dbc49ee7d53daa9fb12c0017cfae32b16c4a78fba, 16)
  {
    hide SquareTimes;
    SquareOnce(0x5, 0x19, 31);
    SquareOnce(0x19, 0x271, 30);
    SquareOnce(0x271,
      0x5f5e1, 29);
    SquareOnce(0x5f5e1,
      0x2386f26fc1, 28);
    SquareOnce(0x2386f26fc1,
      0x4ee2d6d415b85acef81, 27);
    SquareOnce(0x4ee2d6d415b85acef81,
      0x184f03e93ff9f4daa797ed6e38ed64bf6a1f01, 26);
    SquareOnce(0x184f03e93ff9f4daa797ed6e38ed64bf6a1f01,
      0x6ca7cc74fe750b34b92227468eaf76a9fa45e9fd1c5e2d7e661f0b24c12e13f, 25);
    SquareOnce(0x6ca7cc74fe750b34b92227468eaf76a9fa45e9fd1c5e2d7e661f0b24c12e13f,
      0x60f840641ec0d0c0d2b77b2d5a393b329442721fad05ab78c7b98f2aa3c20ec9, 24);
    SquareOnce(0x60f840641ec0d0c0d2b77b2d5a393b329442721fad05ab78c7b98f2aa3c20ec9,
      0x3fd1182c055d84e64f5b339209af382f87f43ec32ed8849db83a9271447a6e66, 23);
    SquareOnce(0x3fd1182c055d84e64f5b339209af382f87f43ec32ed8849db83a9271447a6e66,
      0x53ec6b496ddd8e6f62317c901b7a890448c40faa5a23759464397ea30426eb67, 22);
    SquareOnce(0x53ec6b496ddd8e6f62317c901b7a890448c40faa5a23759464397ea30426eb67,
      0x5939873dc509fccb23fbc811a83d80d0cb3f7328a068624b6ab01983aa0f1406, 21);
    SquareOnce(0x5939873dc509fccb23fbc811a83d80d0cb3f7328a068624b6ab01983aa0f1406,
      0x1a79ac5adda673a44c6943ed5122edceb12ac1cce4ff5d471be737332d90af90, 20);
    SquareOnce(0x1a79ac5adda673a44c6943ed5122edceb12ac1cce4ff5d471be737332d90af90,
      0x2f58d1ba23871dcdecfb842ff08f0bd49954796547ac64eadd16f3b0f6d00662, 19);
    SquareOnce(0x2f58d1ba23871dcdecfb842ff08f0bd49954796547ac64eadd16f3b0f6d00662,
      0xd678f735114bd53310fadf7b54b2d7b64e281f050274a62c9f110a37e614da5, 18);
    SquareOnce(0xd678f735114bd53310fadf7b54b2d7b64e281f050274a62c9f110a37e614da5,
      0x4f2e223db9615721033c9ad2e2073ccae536fbf669013919cb965042fb61f2b1, 17);
    SquareOnce(0x4f2e223db9615721033c9ad2e2073ccae536fbf669013919cb965042fb61f2b1,
      0x46f47753f3bb12acf1efb45dbc49ee7d53daa9fb12c0017cfae32b16c4a78fba, 16);
  }

  /** 5^(2^32) is not 1, so 5 is not a root of unity of any domain size. */
  lemma FiveSquaredIsNotOne()
    ensures SquareTimes(5, 32) != 1
  {
    hide SquareTimes;
    FiveSquared16Times();
    SquareOnce(0x46f47753f3bb12acf1efb45dbc49ee7d53daa9fb12c0017cfae32b16c4a78fba,
      0x24fe80aa7f5b85df9bd343f94b46d213faa3a1cef8fc03d3c21845058ae7b528, 15);
    SquareOnce(0x24fe80aa7f5b85df9bd343f94b46d213faa3a1cef8fc03d3c21845058ae7b528,
      0x5d010ba54882f1880a78e894f430eec05dcf22610bbf54b2fc65e31dd739e750, 14);
    SquareOnce(0x5d010ba54882f1880a78e894f430eec05dcf22610bbf54b2fc65e31dd739e750,
      0x6437cb64bc0327c4ab55b74b8f3d7b06af0869ad0faf34e7f27971b927979be1, 13);
    SquareOnce(0x6437cb64bc0327c4ab55b74b8f3d7b06af0869ad0faf34e7f27971b927979be1,
      0x312a891c3a47cafb15096c0035878b3513485d8f16bae21883caaa81722e5eca, 12);
    SquareOnce(0x312a891c3a47cafb15096c0035878b3513485d8f16bae21883caaa81722e5eca,
      0x5364bdf331653c577fc8152b8d1b56550ca69bb154c1ece409d5903d25ea9b0f, 11);
    SquareOnce(0x5364bdf331653c577fc8152b8d1b56550ca69bb154c1ece409d5903d25ea9b0f,
      0x676826a2219c48a4a7c8043e9f6598aed6340e2b3018eb05f5e7d5a80e47fa3c, 10);
    SquareOnce(0x676826a2219c48a4a7c8043e9f6598aed6340e2b3018eb05f5e7d5a80e47fa3c,
      0x63bd5475e77232f8e1d9514d05fd2a850f7892c19474b92950f8eb8724db922e, 9);
    SquareOnce(0x63bd5475e77232f8e1d9514d05fd2a850f7892c19474b92950f8eb8724db922e,
      0xfe18eea977204704ec7b418e796a694025861e7f1f1c2762020bdd32c7f18cc, 8);
    SquareOnce(0xfe18eea977204704ec7b418e796a694025861e7f1f1c2762020bdd32c7f18cc,
      0x71d5f88affe9cc0ef432caaa7d02f9f8468f5d882a663ca427ccc3bff3d9b3ba, 7);
    SquareOnce(0x71d5f88affe9cc0ef432caaa7d02f9f8468f5d882a663ca427ccc3bff3d9b3ba,
      0x574512c7ca3c6845c6dafd0c68b94a66bb685e3c201b6fbead29435fab810b9e, 6);
    SquareOnce(0x574512c7ca3c6845c6dafd0c68b94a66bb685e3c201b6fbead29435fab810b9e,
      0x461f9095a064d8124e2d76ded8df0a9215fd7891016f38b845a0cba7dd5db03d, 5);
    SquareOnce(0x461f9095a064d8124e2d76ded8df0a9215fd7891016f38b845a0cba7dd5db03d,
      0xcc0d0928237999213dae9af501dca37e05c0ecf8fe3433f9c0ec1e62b0e3836, 4);
    SquareOnce(0xcc0d0928237999213dae9af501dca37e05c0ecf8fe3433f9c0ec1e62b0e3836,
      0x6759acd345a814b5b038d67b9b1d33a837b0cc8d2849ddd431cb9eb4f4e5cce9, 3);
    SquareOnce(0x6759acd345a814b5b038d67b9b1d33a837b0cc8d2849ddd431cb9eb4f4e5cce9,
      0x69301d4609aa6baba7cddbd3c54ec17db43bd6cf3f594b0c7ad0df860a55652d, 2);
    SquareOnce(0x69301d4609aa6baba7cddbd3c54ec17db43bd6cf3f594b0c7ad0df860a55652d,
      0xf20b4bfb3ecaccd60214e85d68e774b5bfbef490bb1809afea87b9d013b91b6, 1);
    SquareOnce(0xf20b4bfb3ecaccd60214e85d68e774b5bfbef490bb1809afea87b9d013b91b6,
      0x6e6d8e33c2b4c0b392e4c4c82809b0355c32d41b93dd3bbfbd9bdcce92ba18fe, 0);
  }

  // ---------- Every domain is valid ----------

  lemma {:induction false} SquareTimesIsPow(a: Scalar, k: nat)
    ensures SquareTimes(a, k) == Pow(a, Pow2(k))
    decreases k
  {
    hide Mul;
    if k == 0 {
      assert Pow(a, 1) == Mul(a, Pow(a, 0));
      MulUnits(a);
    } else {
      SquareTimesIsPow(Mul(a, a), k - 1);
      PowOfMul(a, a, Pow2(k - 1));
      PowAdd(a, Pow2(k - 1), Pow2(k - 1));
    }
  }

  lemma {:induction false} SquareTimesAdd(a: Scalar, j: nat, k: nat)
    ensures SquareTimes(a, j + k) == SquareTimes(SquareTimes(a, j), k)
    decreases j
  {
    hide Mul;
    if j > 0 {
      SquareTimesAdd(Mul(a, a), j - 1, k);
    }
  }

  lemma MinusOneSquared()
    ensures Mul(P - 1, P - 1) == 1
  {
    hide Mul;
    MulIsProduct(P - 1, P - 1);
  }

  lemma {:induction false} MinusOneToOdd(k: nat)
    ensures Pow(P - 1, 2 * k) == 1 && Pow(P - 1, 2 * k + 1) == P - 1
    decreases k
  {
    hide Mul;
    MinusOneSquared();
    MulUnits(P - 1);
    if k > 0 {
      MinusOneToOdd(k - 1);
      assert Pow(P - 1, 2 * k) == Mul(P - 1, Pow(P - 1, 2 * (k - 1) + 1));
    }
  }

  /** If w squared m - 1 times is -1 then no power below 2^m is 1. */
  lemma {:induction false} OrderIsExact(w: Scalar, m: nat, k: nat)
    requires m > 0 && SquareTimes(w, m - 1) == P - 1 && 0 < k < Pow2(m)
    ensures Pow(w, k) != 1
    decreases m
  {
    hide Mul;
    if k % 2 == 1 {
      var h := Pow2(m - 1);
      SquareTimesIsPow(w, m - 1);
      PowMul(w, h, k);
      PowMul(w, k, h);
      assert h * k == k * h;
      MinusOneToOdd(k / 2);
      PowOne(h);
    } else {
      PowMul(w, 2, k / 2);
      MulUnits(w);
      assert Pow(w, 2) == Mul(w, Pow(w, 1)) && Pow(w, 1) == Mul(w, Pow(w, 0));
      OrderIsExact(Mul(w, w), m - 1, k / 2);
    }
  }

  lemma FiveIsNotARoot(k: nat)
    requires k <= 32
    ensures Pow(5, Pow2(k)) != 1
  {
    if Pow(5, Pow2(k)) == 1 {
      SquareTimesIsPow(5, k);
      SquareTimesAdd(5, k, 32 - k);
      SquareTimesIsPow(1, 32 - k);
      PowOne(Pow2(32 - k));
      FiveSquaredIsNotOne();
      assert false;
    }
  }

  lemma {:induction false} Pow2Monotone(j: nat, k: nat)
    requires j <= k
    ensures Pow2(j) <= Pow2(k)
  {
    if j < k {
      Pow2Monotone(j, k - 1);
    }
  }

  lemma Pow2Of32()
    ensures Pow2(32) == 0x1_0000_0000
  {
    assert Pow2(8) == 256;
    assert Pow2(16) == 256 * Pow2(8);
    assert Pow2(24) == 256 * Pow2(16);
    assert Pow2(32) == 256 * Pow2(24);
  }

  lemma {:induction false} Pow2IsPow2(k: nat)
    ensures IsPow2(Pow2(k))
  {
    if k > 0 {
      Pow2IsPow2(k - 1);
    }
  }

  /** Every 32-bit size has a domain. */
  lemma DomainExists(n: nat)
    requires n <= 0x1_0000_0000
    ensures NewDomain(n).Some?
  {
    var s := NextPow2(n);
    NextPow2IsLeast(n);
    Log2IsInverse(s);
    Pow2Of32();
    Pow2IsPow2(32);
    if Log2(s) > 32 {
      Pow2Monotone(33, Log2(s));
    }
  }

  /** Every domain that `new` returns is valid: this discharges the side conditions of reconstruction. */
  lemma NewDomainIsValid(n: nat)
    requires NewDomain(n).Some?
    ensures ValidDomain(NewDomain(n).value)
    ensures NewDomain(n).value.size == NextPow2(n)
  {
    NextPow2IsLeast(n);
    var k := Log2(NextPow2(n));
    Log2IsInverse(NextPow2(n));
    RootOfOrderPow2(k);
    Pow2Monotone(k, 32);
    Pow2Of32();
    FiveIsNotARoot(k);
  }

  lemma RootOfOrderPow2(k: nat)
    requires k <= 32
    ensures HasOrder(SquareTimes(TWO_ADIC_ROOT, 32 - k), Pow2(k))
  {
    hide Mul;
    var w := SquareTimes(TWO_ADIC_ROOT, 32 - k);
    // w^(2^k) is the root squared 32 times
    RootSquaredIsMinusOne();
    SquareTimesAdd(TWO_ADIC_ROOT, 31, 1);
    assert Mul(P - 1, P - 1) == 1 by { MinusOneSquared(); }
    SquareOnce(P - 1, 1, 0);
    SquareTimesAdd(TWO_ADIC_ROOT, 32 - k, k);
    SquareTimesIsPow(w, k);
    if k > 0 {
      SquareTimesAdd(TWO_ADIC_ROOT, 32 - k, k - 1);
      forall j {:trigger Pow(w, j)} | 0 < j < Pow2(k)
        ensures Pow(w, j) != 1
      {
        OrderIsExact(w, k, j);
      }
    }
  }

  /** The half-size domain exists and is generated by the square of the generator. */
  lemma HalfDomain(n: nat)
    requires NewDomain(n).Some? && NewDomain(n).value.size > 1
    ensures var d := NewDomain(n).value;
      d.size % 2 == 0 && NewDomain(d.size / 2) == Some(Domain(d.size / 2, Mul(d.gen, d.gen)))
  {
    NextPow2IsLeast(n);
    var size := NextPow2(n);
    var k := Log2(size);
    NextPow2OfPow2(size / 2);
    assert Log2(size / 2) == k - 1;
    hide Mul;
    SquareTimesAdd(TWO_ADIC_ROOT, 32 - k, 1);
  }

  // ---------- The transforms are inverse on a valid domain ----------

  lemma IfftOfFft(d: Domain, c: seq<Scalar>)
    requires PrimeModulus() && ValidDomain(d) && |c| == d.size
    ensures Ifft(d, Fft(d, c)) == c
  {
    hide Mul, InverseDft, Dft;
    assert Resize(c, d.size) == c;
    var e := Dft(c, d.gen, d.size);
    assert Resize(e, d.size) == e;
    InverseDftOfDft(c, d.gen);
  }

  lemma FftOfIfft(d: Domain, e: seq<Scalar>)
    requires PrimeModulus() && ValidDomain(d) && |e| == d.size
    ensures Fft(d, Ifft(d, e)) == e
  {
    hide Mul, InverseDft, Dft;
    assert Resize(e, d.size) == e;
    var c := InverseDft(e, d.gen);
    assert Resize(c, d.size) == c;
    DftOfInverseDft(e, d.gen);
  }
}
