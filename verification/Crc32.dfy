/** CRC-32 in three forms: one bit at a time, by half bytes and by bytes. */
module Crc32 {
  /** The sum of two polynomials over the field of two elements, one coefficient a bit. */
  function Plus(a: bv32, b: bv32): bv32 {
    a ^ b
  }

  function Not(c: bv32): bv32 {
    c ^ 0xFFFF_FFFF
  }

  function Half(c: bv32): bv32 {
    c >> 1
  }

  predicate Odd(c: bv32) {
    c & 1 == 1
  }

  function Wide(b: bv8): bv32 {
    b as bv32
  }

  function Low(b: bv8): bv4 {
    (b & 15) as bv4
  }

  function High(b: bv8): bv4 {
    (b >> 4) as bv4
  }

  function Digit(n: bv4): bv32 {
    n as bv32
  }

  function Up(c: bv32, n: nat): bv32
    requires n <= 24
  {
    c << n
  }

  /** One bit of the division by the reflected polynomial. */
  function Divide(c: bv32): bv32 {
    if Odd(c) then Plus(Half(c), 0xEDB8_8320) else Half(c)
  }

  function DivideNibble(c: bv32): bv32 {
    Divide(Divide(Divide(Divide(c))))
  }

  function DivideByte(c: bv32): bv32 {
    DivideNibble(DivideNibble(c))
  }

  /** The remainder after all bytes, lowest bit of each first, from a remainder c. */
  function Remainder(c: bv32, data: seq<bv8>): bv32
    decreases |data|
  {
    if data == [] then c
    else DivideByte(Plus(Remainder(c, data[..|data| - 1]), Wide(data[|data| - 1])))
  }

  function Nibbles(n: bv4): bv32 {
    match n
    case 0 => 0
    case 1 => 0x1DB7_1064
    case 2 => 0x3B6E_20C8
    case 3 => 0x26D9_30AC
    case 4 => 0x76DC_4190
    case 5 => 0x6B6B_51F4
    case 6 => 0x4DB2_6158
    case 7 => 0x5005_713C
    case 8 => 0xEDB8_8320
    case 9 => 0xF00F_9344
    case 10 => 0xD6D6_A3E8
    case 11 => 0xCB61_B38C
    case 12 => 0x9B64_C2B0
    case 13 => 0x86D3_D2D4
    case 14 => 0xA00A_E278
    case _ => 0xBDBD_F21C
  }

  function Bytes0(n: bv4): bv32 {
    match n
    case 0 => 0x0000_0000
    case 1 => 0x7707_3096
    case 2 => 0xEE0E_612C
    case 3 => 0x9909_51BA
    case 4 => 0x076D_C419
    case 5 => 0x706A_F48F
    case 6 => 0xE963_A535
    case 7 => 0x9E64_95A3
    case 8 => 0x0EDB_8832
    case 9 => 0x79DC_B8A4
    case 10 => 0xE0D5_E91E
    case 11 => 0x97D2_D988
    case 12 => 0x09B6_4C2B
    case 13 => 0x7EB1_7CBD
    case 14 => 0xE7B8_2D07
    case _ => 0x90BF_1D91
  }

  function Bytes1(n: bv4): bv32 {
    match n
    case 0 => 0x1DB7_1064
    case 1 => 0x6AB0_20F2
    case 2 => 0xF3B9_7148
    case 3 => 0x84BE_41DE
    case 4 => 0x1ADA_D47D
    case 5 => 0x6DDD_E4EB
    case 6 => 0xF4D4_B551
    case 7 => 0x83D3_85C7
    case 8 => 0x136C_9856
    case 9 => 0x646B_A8C0
    case 10 => 0xFD62_F97A
    case 11 => 0x8A65_C9EC
    case 12 => 0x1401_5C4F
    case 13 => 0x6306_6CD9
    case 14 => 0xFA0F_3D63
    case _ => 0x8D08_0DF5
  }

  function Bytes2(n: bv4): bv32 {
    match n
    case 0 => 0x3B6E_20C8
    case 1 => 0x4C69_105E
    case 2 => 0xD560_41E4
    case 3 => 0xA267_7172
    case 4 => 0x3C03_E4D1
    case 5 => 0x4B04_D447
    case 6 => 0xD20D_85FD
    case 7 => 0xA50A_B56B
    case 8 => 0x35B5_A8FA
    case 9 => 0x42B2_986C
    case 10 => 0xDBBB_C9D6
    case 11 => 0xACBC_F940
    case 12 => 0x32D8_6CE3
    case 13 => 0x45DF_5C75
    case 14 => 0xDCD6_0DCF
    case _ => 0xABD1_3D59
  }

  function Bytes3(n: bv4): bv32 {
    match n
    case 0 => 0x26D9_30AC
    case 1 => 0x51DE_003A
    case 2 => 0xC8D7_5180
    case 3 => 0xBFD0_6116
    case 4 => 0x21B4_F4B5
    case 5 => 0x56B3_C423
    case 6 => 0xCFBA_9599
    case 7 => 0xB8BD_A50F
    case 8 => 0x2802_B89E
    case 9 => 0x5F05_8808
    case 10 => 0xC60C_D9B2
    case 11 => 0xB10B_E924
    case 12 => 0x2F6F_7C87
    case 13 => 0x5868_4C11
    case 14 => 0xC161_1DAB
    case _ => 0xB666_2D3D
  }

  function Bytes4(n: bv4): bv32 {
    match n
    case 0 => 0x76DC_4190
    case 1 => 0x01DB_7106
    case 2 => 0x98D2_20BC
    case 3 => 0xEFD5_102A
    case 4 => 0x71B1_8589
    case 5 => 0x06B6_B51F
    case 6 => 0x9FBF_E4A5
    case 7 => 0xE8B8_D433
    case 8 => 0x7807_C9A2
    case 9 => 0x0F00_F934
    case 10 => 0x9609_A88E
    case 11 => 0xE10E_9818
    case 12 => 0x7F6A_0DBB
    case 13 => 0x086D_3D2D
    case 14 => 0x9164_6C97
    case _ => 0xE663_5C01
  }

  function Bytes5(n: bv4): bv32 {
    match n
    case 0 => 0x6B6B_51F4
    case 1 => 0x1C6C_6162
    case 2 => 0x8565_30D8
    case 3 => 0xF262_004E
    case 4 => 0x6C06_95ED
    case 5 => 0x1B01_A57B
    case 6 => 0x8208_F4C1
    case 7 => 0xF50F_C457
    case 8 => 0x65B0_D9C6
    case 9 => 0x12B7_E950
    case 10 => 0x8BBE_B8EA
    case 11 => 0xFCB9_887C
    case 12 => 0x62DD_1DDF
    case 13 => 0x15DA_2D49
    case 14 => 0x8CD3_7CF3
    case _ => 0xFBD4_4C65
  }

  function Bytes6(n: bv4): bv32 {
    match n
    case 0 => 0x4DB2_6158
    case 1 => 0x3AB5_51CE
    case 2 => 0xA3BC_0074
    case 3 => 0xD4BB_30E2
    case 4 => 0x4ADF_A541
    case 5 => 0x3DD8_95D7
    case 6 => 0xA4D1_C46D
    case 7 => 0xD3D6_F4FB
    case 8 => 0x4369_E96A
    case 9 => 0x346E_D9FC
    case 10 => 0xAD67_8846
    case 11 => 0xDA60_B8D0
    case 12 => 0x4404_2D73
    case 13 => 0x3303_1DE5
    case 14 => 0xAA0A_4C5F
    case _ => 0xDD0D_7CC9
  }

  function Bytes7(n: bv4): bv32 {
    match n
    case 0 => 0x5005_713C
    case 1 => 0x2702_41AA
    case 2 => 0xBE0B_1010
    case 3 => 0xC90C_2086
    case 4 => 0x5768_B525
    case 5 => 0x206F_85B3
    case 6 => 0xB966_D409
    case 7 => 0xCE61_E49F
    case 8 => 0x5EDE_F90E
    case 9 => 0x29D9_C998
    case 10 => 0xB0D0_9822
    case 11 => 0xC7D7_A8B4
    case 12 => 0x59B3_3D17
    case 13 => 0x2EB4_0D81
    case 14 => 0xB7BD_5C3B
    case _ => 0xC0BA_6CAD
  }

  function Bytes8(n: bv4): bv32 {
    match n
    case 0 => 0xEDB8_8320
    case 1 => 0x9ABF_B3B6
    case 2 => 0x03B6_E20C
    case 3 => 0x74B1_D29A
    case 4 => 0xEAD5_4739
    case 5 => 0x9DD2_77AF
    case 6 => 0x04DB_2615
    case 7 => 0x73DC_1683
    case 8 => 0xE363_0B12
    case 9 => 0x9464_3B84
    case 10 => 0x0D6D_6A3E
    case 11 => 0x7A6A_5AA8
    case 12 => 0xE40E_CF0B
    case 13 => 0x9309_FF9D
    case 14 => 0x0A00_AE27
    case _ => 0x7D07_9EB1
  }

  function Bytes9(n: bv4): bv32 {
    match n
    case 0 => 0xF00F_9344
    case 1 => 0x8708_A3D2
    case 2 => 0x1E01_F268
    case 3 => 0x6906_C2FE
    case 4 => 0xF762_575D
    case 5 => 0x8065_67CB
    case 6 => 0x196C_3671
    case 7 => 0x6E6B_06E7
    case 8 => 0xFED4_1B76
    case 9 => 0x89D3_2BE0
    case 10 => 0x10DA_7A5A
    case 11 => 0x67DD_4ACC
    case 12 => 0xF9B9_DF6F
    case 13 => 0x8EBE_EFF9
    case 14 => 0x17B7_BE43
    case _ => 0x60B0_8ED5
  }

  function BytesA(n: bv4): bv32 {
    match n
    case 0 => 0xD6D6_A3E8
    case 1 => 0xA1D1_937E
    case 2 => 0x38D8_C2C4
    case 3 => 0x4FDF_F252
    case 4 => 0xD1BB_67F1
    case 5 => 0xA6BC_5767
    case 6 => 0x3FB5_06DD
    case 7 => 0x48B2_364B
    case 8 => 0xD80D_2BDA
    case 9 => 0xAF0A_1B4C
    case 10 => 0x3603_4AF6
    case 11 => 0x4104_7A60
    case 12 => 0xDF60_EFC3
    case 13 => 0xA867_DF55
    case 14 => 0x316E_8EEF
    case _ => 0x4669_BE79
  }

  function BytesB(n: bv4): bv32 {
    match n
    case 0 => 0xCB61_B38C
    case 1 => 0xBC66_831A
    case 2 => 0x256F_D2A0
    case 3 => 0x5268_E236
    case 4 => 0xCC0C_7795
    case 5 => 0xBB0B_4703
    case 6 => 0x2202_16B9
    case 7 => 0x5505_262F
    case 8 => 0xC5BA_3BBE
    case 9 => 0xB2BD_0B28
    case 10 => 0x2BB4_5A92
    case 11 => 0x5CB3_6A04
    case 12 => 0xC2D7_FFA7
    case 13 => 0xB5D0_CF31
    case 14 => 0x2CD9_9E8B
    case _ => 0x5BDE_AE1D
  }

  function BytesC(n: bv4): bv32 {
    match n
    case 0 => 0x9B64_C2B0
    case 1 => 0xEC63_F226
    case 2 => 0x756A_A39C
    case 3 => 0x026D_930A
    case 4 => 0x9C09_06A9
    case 5 => 0xEB0E_363F
    case 6 => 0x7207_6785
    case 7 => 0x0500_5713
    case 8 => 0x95BF_4A82
    case 9 => 0xE2B8_7A14
    case 10 => 0x7BB1_2BAE
    case 11 => 0x0CB6_1B38
    case 12 => 0x92D2_8E9B
    case 13 => 0xE5D5_BE0D
    case 14 => 0x7CDC_EFB7
    case _ => 0x0BDB_DF21
  }

  function BytesD(n: bv4): bv32 {
    match n
    case 0 => 0x86D3_D2D4
    case 1 => 0xF1D4_E242
    case 2 => 0x68DD_B3F8
    case 3 => 0x1FDA_836E
    case 4 => 0x81BE_16CD
    case 5 => 0xF6B9_265B
    case 6 => 0x6FB0_77E1
    case 7 => 0x18B7_4777
    case 8 => 0x8808_5AE6
    case 9 => 0xFF0F_6A70
    case 10 => 0x6606_3BCA
    case 11 => 0x1101_0B5C
    case 12 => 0x8F65_9EFF
    case 13 => 0xF862_AE69
    case 14 => 0x616B_FFD3
    case _ => 0x166C_CF45
  }

  function BytesE(n: bv4): bv32 {
    match n
    case 0 => 0xA00A_E278
    case 1 => 0xD70D_D2EE
    case 2 => 0x4E04_8354
    case 3 => 0x3903_B3C2
    case 4 => 0xA767_2661
    case 5 => 0xD060_16F7
    case 6 => 0x4969_474D
    case 7 => 0x3E6E_77DB
    case 8 => 0xAED1_6A4A
    case 9 => 0xD9D6_5ADC
    case 10 => 0x40DF_0B66
    case 11 => 0x37D8_3BF0
    case 12 => 0xA9BC_AE53
    case 13 => 0xDEBB_9EC5
    case 14 => 0x47B2_CF7F
    case _ => 0x30B5_FFE9
  }

  function BytesF(n: bv4): bv32 {
    match n
    case 0 => 0xBDBD_F21C
    case 1 => 0xCABA_C28A
    case 2 => 0x53B3_9330
    case 3 => 0x24B4_A3A6
    case 4 => 0xBAD0_3605
    case 5 => 0xCDD7_0693
    case 6 => 0x54DE_5729
    case 7 => 0x23D9_67BF
    case 8 => 0xB366_7A2E
    case 9 => 0xC461_4AB8
    case 10 => 0x5D68_1B02
    case 11 => 0x2A6F_2B94
    case 12 => 0xB40B_BE37
    case 13 => 0xC30C_8EA1
    case 14 => 0x5A05_DF1B
    case _ => 0x2D02_EF8D
  }

  function Bytes(n: bv8): bv32 {
    var low := Low(n);
    match High(n)
    case 0 => Bytes0(low)
    case 1 => Bytes1(low)
    case 2 => Bytes2(low)
    case 3 => Bytes3(low)
    case 4 => Bytes4(low)
    case 5 => Bytes5(low)
    case 6 => Bytes6(low)
    case 7 => Bytes7(low)
    case 8 => Bytes8(low)
    case 9 => Bytes9(low)
    case 10 => BytesA(low)
    case 11 => BytesB(low)
    case 12 => BytesC(low)
    case 13 => BytesD(low)
    case 14 => BytesE(low)
    case _ => BytesF(low)
  }

  // ---------- division is linear and loses nothing

  lemma SumCommutes(a: bv32, b: bv32)
    ensures Plus(a, b) == Plus(b, a)
  {
  }

  lemma SumCancels(a: bv32, b: bv32)
    ensures Plus(Plus(a, b), b) == a && Plus(a, 0) == a
  {
  }

  lemma SumAssociates(a: bv32, b: bv32, c: bv32)
    ensures Plus(Plus(a, b), c) == Plus(a, Plus(b, c))
  {
  }

  lemma Sums(a: bv32, b: bv32, p: bv32)
    ensures Plus(a, b) == Plus(b, a) && Plus(Plus(a, b), b) == a && Plus(a, 0) == a
    ensures Plus(Plus(a, p), Plus(b, p)) == Plus(a, b)
    ensures Plus(Plus(a, p), b) == Plus(Plus(a, b), p) == Plus(a, Plus(b, p))
  {
    hide Plus;
    SumCommutes(a, b);
    SumCommutes(b, p);
    SumCancels(a, b);
    SumCancels(b, p);
    SumAssociates(a, p, b);
    SumAssociates(a, b, p);
    SumAssociates(a, p, Plus(b, p));
    SumCommutes(p, Plus(b, p));
  }

  lemma HalfPlus(a: bv32, b: bv32)
    ensures Half(Plus(a, b)) == Plus(Half(a), Half(b))
    ensures Odd(Plus(a, b)) <==> Odd(a) != Odd(b)
  {
  }

  lemma DivideLinear(a: bv32, b: bv32)
    ensures Divide(Plus(a, b)) == Plus(Divide(a), Divide(b))
  {
    hide Plus, Half, Odd;
    HalfPlus(a, b);
    Sums(Half(a), Half(b), 0xEDB8_8320);
  }

  lemma DivideInjective(a: bv32, b: bv32)
    requires Divide(a) == Divide(b)
    ensures a == b
  {
  }

  lemma NibbleLinear(a: bv32, b: bv32)
    ensures DivideNibble(Plus(a, b)) == Plus(DivideNibble(a), DivideNibble(b))
  {
    hide Divide, Plus;
    var a1, b1 := Divide(a), Divide(b);
    var a2, b2 := Divide(a1), Divide(b1);
    DivideLinear(a, b);
    DivideLinear(a1, b1);
    DivideLinear(a2, b2);
    DivideLinear(Divide(a2), Divide(b2));
  }

  lemma ByteLinear(a: bv32, b: bv32)
    ensures DivideByte(Plus(a, b)) == Plus(DivideByte(a), DivideByte(b))
  {
    hide DivideNibble, Plus;
    NibbleLinear(a, b);
    NibbleLinear(DivideNibble(a), DivideNibble(b));
  }

  lemma NibbleInjective(a: bv32, b: bv32)
    requires DivideNibble(a) == DivideNibble(b)
    ensures a == b
  {
    hide Divide;
    var a1, b1 := Divide(a), Divide(b);
    var a2, b2 := Divide(a1), Divide(b1);
    DivideInjective(Divide(a2), Divide(b2));
    DivideInjective(a2, b2);
    DivideInjective(a1, b1);
    DivideInjective(a, b);
  }

  lemma ByteInjective(a: bv32, b: bv32)
    requires DivideByte(a) == DivideByte(b)
    ensures a == b
  {
    hide DivideNibble;
    NibbleInjective(DivideNibble(a), DivideNibble(b));
    NibbleInjective(a, b);
  }

  /** Bits that are above the part divided away just move down. */
  lemma MoveNibble(c: bv32)
    requires c & 15 == 0
    ensures DivideNibble(c) == c >> 4
  {
    assert !Odd(c) && !Odd(Half(c)) && !Odd(Half(Half(c))) && !Odd(Half(Half(Half(c))));
    assert Half(Half(Half(Half(c)))) == c >> 4;
  }

  lemma MoveByte(c: bv32)
    requires c & 255 == 0
    ensures DivideByte(c) == c >> 8
  {
    hide DivideNibble;
    assert c & 15 == 0 && (c >> 4) & 15 == 0 && c >> 4 >> 4 == c >> 8;
    MoveNibble(c);
    MoveNibble(c >> 4);
  }

  // ---------- the tables hold the remainders of their indices

  lemma NibblesDivide(n: bv4)
    ensures Nibbles(n) == DivideNibble(Digit(n))
  {
  }

  lemma Row0(n: bv4)
    ensures Bytes0(n) == DivideByte(0x00 | Digit(n))
  {
  }

  lemma Row1(n: bv4)
    ensures Bytes1(n) == DivideByte(0x10 | Digit(n))
  {
  }

  lemma Row2(n: bv4)
    ensures Bytes2(n) == DivideByte(0x20 | Digit(n))
  {
  }

  lemma Row3(n: bv4)
    ensures Bytes3(n) == DivideByte(0x30 | Digit(n))
  {
  }

  lemma Row4(n: bv4)
    ensures Bytes4(n) == DivideByte(0x40 | Digit(n))
  {
  }

  lemma Row5(n: bv4)
    ensures Bytes5(n) == DivideByte(0x50 | Digit(n))
  {
  }

  lemma Row6(n: bv4)
    ensures Bytes6(n) == DivideByte(0x60 | Digit(n))
  {
  }

  lemma Row7(n: bv4)
    ensures Bytes7(n) == DivideByte(0x70 | Digit(n))
  {
  }

  lemma Row8(n: bv4)
    ensures Bytes8(n) == DivideByte(0x80 | Digit(n))
  {
  }

  lemma Row9(n: bv4)
    ensures Bytes9(n) == DivideByte(0x90 | Digit(n))
  {
  }

  lemma RowA(n: bv4)
    ensures BytesA(n) == DivideByte(0xA0 | Digit(n))
  {
  }

  lemma RowB(n: bv4)
    ensures BytesB(n) == DivideByte(0xB0 | Digit(n))
  {
  }

  lemma RowC(n: bv4)
    ensures BytesC(n) == DivideByte(0xC0 | Digit(n))
  {
  }

  lemma RowD(n: bv4)
    ensures BytesD(n) == DivideByte(0xD0 | Digit(n))
  {
  }

  lemma RowE(n: bv4)
    ensures BytesE(n) == DivideByte(0xE0 | Digit(n))
  {
  }

  lemma RowF(n: bv4)
    ensures BytesF(n) == DivideByte(0xF0 | Digit(n))
  {
  }

  lemma WideParts(n: bv8)
    ensures Wide(n) == Up(Digit(High(n)), 4) | Digit(Low(n))
    ensures Wide(n) == Plus(Digit(Low(n)), Up(Digit(High(n)), 4))
  {
  }

  lemma UpDigits(n: bv4)
    ensures n == 0 ==> Up(Digit(n), 4) == 0
    ensures n == 1 ==> Up(Digit(n), 4) == 0x10
    ensures n == 2 ==> Up(Digit(n), 4) == 0x20
    ensures n == 3 ==> Up(Digit(n), 4) == 0x30
    ensures n == 4 ==> Up(Digit(n), 4) == 0x40
    ensures n == 5 ==> Up(Digit(n), 4) == 0x50
    ensures n == 6 ==> Up(Digit(n), 4) == 0x60
    ensures n == 7 ==> Up(Digit(n), 4) == 0x70
    ensures n == 8 ==> Up(Digit(n), 4) == 0x80
    ensures n == 9 ==> Up(Digit(n), 4) == 0x90
    ensures n == 10 ==> Up(Digit(n), 4) == 0xA0
    ensures n == 11 ==> Up(Digit(n), 4) == 0xB0
    ensures n == 12 ==> Up(Digit(n), 4) == 0xC0
    ensures n == 13 ==> Up(Digit(n), 4) == 0xD0
    ensures n == 14 ==> Up(Digit(n), 4) == 0xE0
    ensures n == 15 ==> Up(Digit(n), 4) == 0xF0
  {
  }

  lemma BytesDivide(n: bv8)
    ensures Bytes(n) == DivideByte(Wide(n))
  {
    hide *;
    WideParts(n);
    UpDigits(High(n));
    BytesRow(n);
    match High(n)
    case 0 => Row0(Low(n));
    case 1 => Row1(Low(n));
    case 2 => Row2(Low(n));
    case 3 => Row3(Low(n));
    case 4 => Row4(Low(n));
    case 5 => Row5(Low(n));
    case 6 => Row6(Low(n));
    case 7 => Row7(Low(n));
    case 8 => Row8(Low(n));
    case 9 => Row9(Low(n));
    case 10 => RowA(Low(n));
    case 11 => RowB(Low(n));
    case 12 => RowC(Low(n));
    case 13 => RowD(Low(n));
    case 14 => RowE(Low(n));
    case _ => RowF(Low(n));
  }

  lemma BytesRow(n: bv8)
    ensures Bytes(n) == match High(n)
                        case 0 => Bytes0(Low(n))
                        case 1 => Bytes1(Low(n))
                        case 2 => Bytes2(Low(n))
                        case 3 => Bytes3(Low(n))
                        case 4 => Bytes4(Low(n))
                        case 5 => Bytes5(Low(n))
                        case 6 => Bytes6(Low(n))
                        case 7 => Bytes7(Low(n))
                        case 8 => Bytes8(Low(n))
                        case 9 => Bytes9(Low(n))
                        case 10 => BytesA(Low(n))
                        case 11 => BytesB(Low(n))
                        case 12 => BytesC(Low(n))
                        case 13 => BytesD(Low(n))
                        case 14 => BytesE(Low(n))
                        case _ => BytesF(Low(n))
  {
    hide Bytes0, Bytes1, Bytes2, Bytes3, Bytes4, Bytes5, Bytes6, Bytes7, Bytes8, Bytes9, BytesA, BytesB, BytesC, BytesD, BytesE, BytesF;
  }

  // ---------- the two loops

  /** Half a byte moves out and the table puts its remainder in. */
  function NextHalf(c: bv32, n: bv4): bv32 {
    (c >> 4) ^ Nibbles(((c & 0xF) as bv4) ^ n)
  }

  /** The same with a whole byte. */
  function NextByte(c: bv32, b: bv8): bv32 {
    Bytes(((c ^ (b as bv32)) & 0xFF) as bv8) ^ (c >> 8)
  }

  lemma SplitNibble(c: bv32, n: bv4)
    ensures var x := Plus(c, Digit(n));
            x == Plus(c & 0xFFFF_FFF0, Digit(((c & 0xF) as bv4) ^ n))
    ensures (c & 0xFFFF_FFF0) & 15 == 0 && (c & 0xFFFF_FFF0) >> 4 == c >> 4
  {
  }

  lemma HalfStep(c: bv32, n: bv4)
    ensures NextHalf(c, n) == DivideNibble(Plus(c, Digit(n)))
  {
    hide DivideNibble, Nibbles, Digit;
    var k, top := ((c & 0xF) as bv4) ^ n, c & 0xFFFF_FFF0;
    SplitNibble(c, n);
    MoveNibble(top);
    NibblesDivide(k);
    NibbleLinear(top, Digit(k));
  }

  lemma SplitByte(c: bv32, b: bv8)
    ensures var x := Plus(c, Wide(b));
            x == Plus(c & 0xFFFF_FF00, Wide(((c ^ (b as bv32)) & 0xFF) as bv8))
    ensures (c & 0xFFFF_FF00) & 255 == 0 && (c & 0xFFFF_FF00) >> 8 == c >> 8
  {
  }

  lemma ByteStep(c: bv32, b: bv8)
    ensures NextByte(c, b) == DivideByte(Plus(c, Wide(b)))
  {
    hide DivideByte, Bytes, Wide;
    var k, top := ((c ^ (b as bv32)) & 0xFF) as bv8, c & 0xFFFF_FF00;
    SplitByte(c, b);
    MoveByte(top);
    BytesDivide(k);
    ByteLinear(top, Wide(k));
  }

  /** Both halves of a byte, low half first. */
  lemma NibbleStep(c: bv32, b: bv8)
    ensures NextHalf(NextHalf(c, Low(b)), High(b)) == DivideByte(Plus(c, Wide(b)))
  {
    hide *;
    var low, high := Digit(Low(b)), Digit(High(b));
    HalfStep(c, Low(b));
    HalfStep(NextHalf(c, Low(b)), High(b));
    WideParts(b);
    Sums(c, low, Up(high, 4));
    NibbleLinear(Plus(c, low), Up(high, 4));
    DigitIsSmall(High(b));
    BytesIsNibbles(Plus(c, Wide(b)));
  }

  lemma BytesIsNibbles(c: bv32)
    ensures DivideByte(c) == DivideNibble(DivideNibble(c))
  {
  }

  lemma DigitIsSmall(n: bv4)
    ensures DivideNibble(Up(Digit(n), 4)) == Digit(n)
  {
    hide DivideNibble;
    MoveNibble(Up(Digit(n), 4));
  }

  lemma RemainderNext(c: bv32, data: seq<bv8>, k: nat)
    requires k < |data|
    ensures Remainder(c, data[..k + 1]) == DivideByte(Plus(Remainder(c, data[..k]), Wide(data[k])))
  {
    hide DivideByte, Plus, Wide;
    assert data[..k + 1][..k] == data[..k];
  }

  /** By half bytes, as the compression side checks. */
  method Crc(crc: bv32, data: seq<bv8>) returns (r: bv32)
    ensures r == Not(Remainder(Not(crc), data))
  {
    hide *;
    var c := Not(crc);
    RemainderNone(c);
    assert data[..0] == [];
    for k := 0 to |data|
      invariant c == Remainder(Not(crc), data[..k])
    {
      var b := data[k];
      NibbleStep(c, b);
      RemainderNext(Not(crc), data, k);
      c := NextHalf(c, Low(b));
      c := NextHalf(c, High(b));
    }
    assert data[..|data|] == data;
    r := Not(c);
  }

  lemma RemainderNone(c: bv32)
    ensures Remainder(c, []) == c
  {
  }

  /** By bytes, as the archive test checks. */
  method CrcBuf(data: seq<bv8>) returns (r: bv32)
    ensures r == Not(Remainder(0xFFFF_FFFF, data))
  {
    hide *;
    var c: bv32 := 0xFFFF_FFFF;
    RemainderNone(c);
    assert data[..0] == [];
    for k := 0 to |data|
      invariant c == Remainder(0xFFFF_FFFF, data[..k])
    {
      ByteStep(c, data[k]);
      RemainderNext(0xFFFF_FFFF, data, k);
      c := NextByte(c, data[k]);
    }
    assert data[..|data|] == data;
    r := Not(c);
  }

  /** Both forms give every byte string the same checksum, whole or in two parts. */
  method Agree(a: seq<bv8>, b: seq<bv8>) returns (whole: bv32, parts: bv32, bytes: bv32)
    ensures whole == parts == bytes
  {
    hide *;
    whole := Crc(0, a + b);
    parts := Crc(0, a);
    parts := Crc(parts, b);
    bytes := CrcBuf(a + b);
    RemainderConcat(0xFFFF_FFFF, a, b);
    NotNot(Remainder(0xFFFF_FFFF, a));
  }

  lemma NotNot(c: bv32)
    ensures Not(Not(c)) == c && Not(0) == 0xFFFF_FFFF
  {
  }

  lemma {:induction false} RemainderConcat(c: bv32, a: seq<bv8>, b: seq<bv8>)
    ensures Remainder(c, a + b) == Remainder(Remainder(c, a), b)
    decreases |b|
  {
    hide DivideByte, Plus, Wide;
    if b == [] {
      assert a + b == a;
    } else {
      var m := |b| - 1;
      RemainderConcat(c, a, b[..m]);
      assert (a + b)[..|a + b| - 1] == a + b[..m];
      assert (a + b)[|a + b| - 1] == b[m];
    }
  }

  // ---------- what the checksum detects

  lemma {:induction false} RemainderInjective(c: bv32, d: bv32, data: seq<bv8>)
    requires Remainder(c, data) == Remainder(d, data)
    ensures c == d
    decreases |data|
  {
    hide DivideByte, Plus, Wide;
    if data != [] {
      var m := |data| - 1;
      var x, y, b := Remainder(c, data[..m]), Remainder(d, data[..m]), Wide(data[m]);
      ByteInjective(Plus(x, b), Plus(y, b));
      Sums(x, b, 0);
      Sums(y, b, 0);
      RemainderInjective(c, d, data[..m]);
    }
  }

  lemma UpDown(b: bv8, k: nat)
    requires k <= 2
    ensures Up(Wide(b), 8 * k + 8) & 255 == 0 && Up(Wide(b), 8 * k + 8) >> 8 == Up(Wide(b), 8 * k)
  {
    match k
    case 0 =>
    case 1 =>
    case _ =>
  }

  /** A byte may as well be added before the division that moves it down. */
  lemma AddEarlier(x: bv32, b: bv8, k: nat)
    requires k <= 2
    ensures Plus(DivideByte(x), Up(Wide(b), 8 * k)) == DivideByte(Plus(x, Up(Wide(b), 8 * k + 8)))
  {
    hide DivideByte, Up, Plus, Wide;
    ByteLinear(x, Up(Wide(b), 8 * k + 8));
    UpDown(b, k);
    MoveByte(Up(Wide(b), 8 * k + 8));
  }

  function Word(m: seq<bv8>): bv32
    requires |m| == 4
  {
    Plus(Plus(Plus(Wide(m[0]), Up(Wide(m[1]), 8)), Up(Wide(m[2]), 16)), Up(Wide(m[3]), 24))
  }

  lemma RemainderOfFour(c: bv32, m: seq<bv8>)
    requires |m| == 4
    ensures Remainder(c, m) ==
            DivideByte(Plus(DivideByte(Plus(DivideByte(Plus(DivideByte(Plus(c, Wide(m[0]))),
                                                            Wide(m[1]))), Wide(m[2]))), Wide(m[3])))
  {
    hide *;
    RemainderNone(c);
    assert m[..0] == [] && m[..4] == m;
    RemainderNext(c, m, 0);
    RemainderNext(c, m, 1);
    RemainderNext(c, m, 2);
    RemainderNext(c, m, 3);
  }

  lemma UpNone(b: bv8)
    ensures Up(Wide(b), 0) == Wide(b)
  {
  }

  lemma RemainderOfWord(c: bv32, m: seq<bv8>)
    requires |m| == 4
    ensures Remainder(c, m) == DivideByte(DivideByte(DivideByte(DivideByte(Plus(c, Word(m))))))
  {
    hide *;
    RemainderOfFour(c, m);
    UpNone(m[1]);
    UpNone(m[2]);
    UpNone(m[3]);
    var x := Plus(c, Wide(m[0]));
    AddEarlier(x, m[1], 0);
    var y := Plus(x, Up(Wide(m[1]), 8));
    AddEarlier(DivideByte(y), m[2], 0);
    AddEarlier(y, m[2], 1);
    var z := Plus(y, Up(Wide(m[2]), 16));
    AddEarlier(DivideByte(DivideByte(z)), m[3], 0);
    AddEarlier(DivideByte(z), m[3], 1);
    AddEarlier(z, m[3], 2);
    WordSum(c, m);
  }

  lemma WordSum(c: bv32, m: seq<bv8>)
    requires |m| == 4
    ensures Plus(c, Word(m)) ==
            Plus(Plus(Plus(Plus(c, Wide(m[0])), Up(Wide(m[1]), 8)), Up(Wide(m[2]), 16)), Up(Wide(m[3]), 24))
  {
    hide Plus, Wide, Up;
    var b0, b1, b2, b3 := Wide(m[0]), Up(Wide(m[1]), 8), Up(Wide(m[2]), 16), Up(Wide(m[3]), 24);
    Sums(c, b0, b1);
    Sums(c, Plus(b0, b1), b2);
    Sums(c, Plus(Plus(b0, b1), b2), b3);
  }

  lemma FourBytes(b0: bv8, b1: bv8, b2: bv8, b3: bv8, v: bv32)
    requires v == Plus(Plus(Plus(Wide(b0), Up(Wide(b1), 8)), Up(Wide(b2), 16)), Up(Wide(b3), 24))
    ensures b0 == (v & 255) as bv8 && b1 == ((v >> 8) & 255) as bv8
    ensures b2 == ((v >> 16) & 255) as bv8 && b3 == (v >> 24) as bv8
  {
  }

  lemma WordInjective(m: seq<bv8>, n: seq<bv8>)
    requires |m| == |n| == 4 && Word(m) == Word(n)
    ensures m == n
  {
    hide Plus, Wide, Up;
    FourBytes(m[0], m[1], m[2], m[3], Word(m));
    FourBytes(n[0], n[1], n[2], n[3], Word(n));
  }

  lemma BurstOfFour(c: bv32, m: seq<bv8>, n: seq<bv8>)
    requires |m| == |n| == 4 && Remainder(c, m) == Remainder(c, n)
    ensures m == n
  {
    hide *;
    RemainderOfWord(c, m);
    RemainderOfWord(c, n);
    var x, y := Plus(c, Word(m)), Plus(c, Word(n));
    var x1, y1 := DivideByte(x), DivideByte(y);
    var x2, y2 := DivideByte(x1), DivideByte(y1);
    ByteInjective(DivideByte(x2), DivideByte(y2));
    ByteInjective(x2, y2);
    ByteInjective(x1, y1);
    ByteInjective(x, y);
    Sums(Word(m), c, 0);
    Sums(Word(n), c, 0);
    WordInjective(m, n);
  }

  /** A change within four neighbouring bytes changes the remainder. */
  lemma BurstDetected(before: seq<bv8>, m: seq<bv8>, n: seq<bv8>, after: seq<bv8>)
    requires |m| == |n| <= 4
    ensures Remainder(0xFFFF_FFFF, before + m + after) == Remainder(0xFFFF_FFFF, before + n + after) <==> m == n
  {
    hide *;
    if Remainder(0xFFFF_FFFF, before + m + after) == Remainder(0xFFFF_FFFF, before + n + after) {
      var c := Remainder(0xFFFF_FFFF, before);
      RemainderConcat(0xFFFF_FFFF, before + m, after);
      RemainderConcat(0xFFFF_FFFF, before + n, after);
      RemainderConcat(0xFFFF_FFFF, before, m);
      RemainderConcat(0xFFFF_FFFF, before, n);
      RemainderInjective(Remainder(c, m), Remainder(c, n), after);
      var fill := seq(4 - |m|, i => 0 as bv8);
      RemainderConcat(c, m, fill);
      RemainderConcat(c, n, fill);
      BurstOfFour(c, m + fill, n + fill);
      assert m == (m + fill)[..|m|] && n == (n + fill)[..|m|];
    }
  }
}
