/** The table of `crypto/crc.h`. Every entry is checked against eight steps of the bit form. */
module CrcTable {

  /** The polynomial of CRC-32, lowest bit first. */
  const POLY: bv32 := 0xEDB88320

  /** One bit of the division. */
  function Step(c: bv32): bv32 {
    if c & 1 == 1 then (c >> 1) ^ POLY else c >> 1
  }

  function Four(c: bv32): bv32 {
    Step(Step(Step(Step(c))))
  }

  function Eight(c: bv32): bv32 {
    Four(Four(c))
  }

  /** Entries 0 to 15. */
  function Part0(j: bv32): bv32 {
    match j
    case 0 => 0x00000000 case 1 => 0x77073096 case 2 => 0xEE0E612C case 3 => 0x990951BA
    case 4 => 0x076DC419 case 5 => 0x706AF48F case 6 => 0xE963A535 case 7 => 0x9E6495A3
    case 8 => 0x0EDB8832 case 9 => 0x79DCB8A4 case 10 => 0xE0D5E91E case 11 => 0x97D2D988
    case 12 => 0x09B64C2B case 13 => 0x7EB17CBD case 14 => 0xE7B82D07 case _ => 0x90BF1D91
  }

  /** Entries 16 to 31. */
  function Part1(j: bv32): bv32 {
    match j
    case 0 => 0x1DB71064 case 1 => 0x6AB020F2 case 2 => 0xF3B97148 case 3 => 0x84BE41DE
    case 4 => 0x1ADAD47D case 5 => 0x6DDDE4EB case 6 => 0xF4D4B551 case 7 => 0x83D385C7
    case 8 => 0x136C9856 case 9 => 0x646BA8C0 case 10 => 0xFD62F97A case 11 => 0x8A65C9EC
    case 12 => 0x14015C4F case 13 => 0x63066CD9 case 14 => 0xFA0F3D63 case _ => 0x8D080DF5
  }

  /** Entries 32 to 47. */
  function Part2(j: bv32): bv32 {
    match j
    case 0 => 0x3B6E20C8 case 1 => 0x4C69105E case 2 => 0xD56041E4 case 3 => 0xA2677172
    case 4 => 0x3C03E4D1 case 5 => 0x4B04D447 case 6 => 0xD20D85FD case 7 => 0xA50AB56B
    case 8 => 0x35B5A8FA case 9 => 0x42B2986C case 10 => 0xDBBBC9D6 case 11 => 0xACBCF940
    case 12 => 0x32D86CE3 case 13 => 0x45DF5C75 case 14 => 0xDCD60DCF case _ => 0xABD13D59
  }

  /** Entries 48 to 63. */
  function Part3(j: bv32): bv32 {
    match j
    case 0 => 0x26D930AC case 1 => 0x51DE003A case 2 => 0xC8D75180 case 3 => 0xBFD06116
    case 4 => 0x21B4F4B5 case 5 => 0x56B3C423 case 6 => 0xCFBA9599 case 7 => 0xB8BDA50F
    case 8 => 0x2802B89E case 9 => 0x5F058808 case 10 => 0xC60CD9B2 case 11 => 0xB10BE924
    case 12 => 0x2F6F7C87 case 13 => 0x58684C11 case 14 => 0xC1611DAB case _ => 0xB6662D3D
  }

  /** Entries 64 to 79. */
  function Part4(j: bv32): bv32 {
    match j
    case 0 => 0x76DC4190 case 1 => 0x01DB7106 case 2 => 0x98D220BC case 3 => 0xEFD5102A
    case 4 => 0x71B18589 case 5 => 0x06B6B51F case 6 => 0x9FBFE4A5 case 7 => 0xE8B8D433
    case 8 => 0x7807C9A2 case 9 => 0x0F00F934 case 10 => 0x9609A88E case 11 => 0xE10E9818
    case 12 => 0x7F6A0DBB case 13 => 0x086D3D2D case 14 => 0x91646C97 case _ => 0xE6635C01
  }

  /** Entries 80 to 95. */
  function Part5(j: bv32): bv32 {
    match j
    case 0 => 0x6B6B51F4 case 1 => 0x1C6C6162 case 2 => 0x856530D8 case 3 => 0xF262004E
    case 4 => 0x6C0695ED case 5 => 0x1B01A57B case 6 => 0x8208F4C1 case 7 => 0xF50FC457
    case 8 => 0x65B0D9C6 case 9 => 0x12B7E950 case 10 => 0x8BBEB8EA case 11 => 0xFCB9887C
    case 12 => 0x62DD1DDF case 13 => 0x15DA2D49 case 14 => 0x8CD37CF3 case _ => 0xFBD44C65
  }

  /** Entries 96 to 111. */
  function Part6(j: bv32): bv32 {
    match j
    case 0 => 0x4DB26158 case 1 => 0x3AB551CE case 2 => 0xA3BC0074 case 3 => 0xD4BB30E2
    case 4 => 0x4ADFA541 case 5 => 0x3DD895D7 case 6 => 0xA4D1C46D case 7 => 0xD3D6F4FB
    case 8 => 0x4369E96A case 9 => 0x346ED9FC case 10 => 0xAD678846 case 11 => 0xDA60B8D0
    case 12 => 0x44042D73 case 13 => 0x33031DE5 case 14 => 0xAA0A4C5F case _ => 0xDD0D7CC9
  }

  /** Entries 112 to 127. */
  function Part7(j: bv32): bv32 {
    match j
    case 0 => 0x5005713C case 1 => 0x270241AA case 2 => 0xBE0B1010 case 3 => 0xC90C2086
    case 4 => 0x5768B525 case 5 => 0x206F85B3 case 6 => 0xB966D409 case 7 => 0xCE61E49F
    case 8 => 0x5EDEF90E case 9 => 0x29D9C998 case 10 => 0xB0D09822 case 11 => 0xC7D7A8B4
    case 12 => 0x59B33D17 case 13 => 0x2EB40D81 case 14 => 0xB7BD5C3B case _ => 0xC0BA6CAD
  }

  /** Entries 128 to 143. */
  function Part8(j: bv32): bv32 {
    match j
    case 0 => 0xEDB88320 case 1 => 0x9ABFB3B6 case 2 => 0x03B6E20C case 3 => 0x74B1D29A
    case 4 => 0xEAD54739 case 5 => 0x9DD277AF case 6 => 0x04DB2615 case 7 => 0x73DC1683
    case 8 => 0xE3630B12 case 9 => 0x94643B84 case 10 => 0x0D6D6A3E case 11 => 0x7A6A5AA8
    case 12 => 0xE40ECF0B case 13 => 0x9309FF9D case 14 => 0x0A00AE27 case _ => 0x7D079EB1
  }

  /** Entries 144 to 159. */
  function Part9(j: bv32): bv32 {
    match j
    case 0 => 0xF00F9344 case 1 => 0x8708A3D2 case 2 => 0x1E01F268 case 3 => 0x6906C2FE
    case 4 => 0xF762575D case 5 => 0x806567CB case 6 => 0x196C3671 case 7 => 0x6E6B06E7
    case 8 => 0xFED41B76 case 9 => 0x89D32BE0 case 10 => 0x10DA7A5A case 11 => 0x67DD4ACC
    case 12 => 0xF9B9DF6F case 13 => 0x8EBEEFF9 case 14 => 0x17B7BE43 case _ => 0x60B08ED5
  }

  /** Entries 160 to 175. */
  function PartA(j: bv32): bv32 {
    match j
    case 0 => 0xD6D6A3E8 case 1 => 0xA1D1937E case 2 => 0x38D8C2C4 case 3 => 0x4FDFF252
    case 4 => 0xD1BB67F1 case 5 => 0xA6BC5767 case 6 => 0x3FB506DD case 7 => 0x48B2364B
    case 8 => 0xD80D2BDA case 9 => 0xAF0A1B4C case 10 => 0x36034AF6 case 11 => 0x41047A60
    case 12 => 0xDF60EFC3 case 13 => 0xA867DF55 case 14 => 0x316E8EEF case _ => 0x4669BE79
  }

  /** Entries 176 to 191. */
  function PartB(j: bv32): bv32 {
    match j
    case 0 => 0xCB61B38C case 1 => 0xBC66831A case 2 => 0x256FD2A0 case 3 => 0x5268E236
    case 4 => 0xCC0C7795 case 5 => 0xBB0B4703 case 6 => 0x220216B9 case 7 => 0x5505262F
    case 8 => 0xC5BA3BBE case 9 => 0xB2BD0B28 case 10 => 0x2BB45A92 case 11 => 0x5CB36A04
    case 12 => 0xC2D7FFA7 case 13 => 0xB5D0CF31 case 14 => 0x2CD99E8B case _ => 0x5BDEAE1D
  }

  /** Entries 192 to 207. */
  function PartC(j: bv32): bv32 {
    match j
    case 0 => 0x9B64C2B0 case 1 => 0xEC63F226 case 2 => 0x756AA39C case 3 => 0x026D930A
    case 4 => 0x9C0906A9 case 5 => 0xEB0E363F case 6 => 0x72076785 case 7 => 0x05005713
    case 8 => 0x95BF4A82 case 9 => 0xE2B87A14 case 10 => 0x7BB12BAE case 11 => 0x0CB61B38
    case 12 => 0x92D28E9B case 13 => 0xE5D5BE0D case 14 => 0x7CDCEFB7 case _ => 0x0BDBDF21
  }

  /** Entries 208 to 223. */
  function PartD(j: bv32): bv32 {
    match j
    case 0 => 0x86D3D2D4 case 1 => 0xF1D4E242 case 2 => 0x68DDB3F8 case 3 => 0x1FDA836E
    case 4 => 0x81BE16CD case 5 => 0xF6B9265B case 6 => 0x6FB077E1 case 7 => 0x18B74777
    case 8 => 0x88085AE6 case 9 => 0xFF0F6A70 case 10 => 0x66063BCA case 11 => 0x11010B5C
    case 12 => 0x8F659EFF case 13 => 0xF862AE69 case 14 => 0x616BFFD3 case _ => 0x166CCF45
  }

  /** Entries 224 to 239. */
  function PartE(j: bv32): bv32 {
    match j
    case 0 => 0xA00AE278 case 1 => 0xD70DD2EE case 2 => 0x4E048354 case 3 => 0x3903B3C2
    case 4 => 0xA7672661 case 5 => 0xD06016F7 case 6 => 0x4969474D case 7 => 0x3E6E77DB
    case 8 => 0xAED16A4A case 9 => 0xD9D65ADC case 10 => 0x40DF0B66 case 11 => 0x37D83BF0
    case 12 => 0xA9BCAE53 case 13 => 0xDEBB9EC5 case 14 => 0x47B2CF7F case _ => 0x30B5FFE9
  }

  /** Entries 240 to 255. */
  function PartF(j: bv32): bv32 {
    match j
    case 0 => 0xBDBDF21C case 1 => 0xCABAC28A case 2 => 0x53B39330 case 3 => 0x24B4A3A6
    case 4 => 0xBAD03605 case 5 => 0xCDD70693 case 6 => 0x54DE5729 case 7 => 0x23D967BF
    case 8 => 0xB3667A2E case 9 => 0xC4614AB8 case 10 => 0x5D681B02 case 11 => 0x2A6F2B94
    case 12 => 0xB40BBE37 case 13 => 0xC30C8EA1 case 14 => 0x5A05DF1B case _ => 0x2D02EF8D
  }

  /** The entry at an index of eight bits. */
  function Entry(i: bv32): bv32
    requires i < 256
  {
    var h, j := i >> 4, i & 15;
    if h == 0 then Part0(j)
    else if h == 1 then Part1(j)
    else if h == 2 then Part2(j)
    else if h == 3 then Part3(j)
    else if h == 4 then Part4(j)
    else if h == 5 then Part5(j)
    else if h == 6 then Part6(j)
    else if h == 7 then Part7(j)
    else if h == 8 then Part8(j)
    else if h == 9 then Part9(j)
    else if h == 10 then PartA(j)
    else if h == 11 then PartB(j)
    else if h == 12 then PartC(j)
    else if h == 13 then PartD(j)
    else if h == 14 then PartE(j)
    else PartF(j)
  }

  lemma Part0Right(i: bv32)
    requires i < 256 && i >> 4 == 0
    ensures Part0(i & 15) == Eight(i)
  {}

  lemma Part1Right(i: bv32)
    requires i < 256 && i >> 4 == 1
    ensures Part1(i & 15) == Eight(i)
  {}

  lemma Part2Right(i: bv32)
    requires i < 256 && i >> 4 == 2
    ensures Part2(i & 15) == Eight(i)
  {}

  lemma Part3Right(i: bv32)
    requires i < 256 && i >> 4 == 3
    ensures Part3(i & 15) == Eight(i)
  {}

  lemma Part4Right(i: bv32)
    requires i < 256 && i >> 4 == 4
    ensures Part4(i & 15) == Eight(i)
  {}

  lemma Part5Right(i: bv32)
    requires i < 256 && i >> 4 == 5
    ensures Part5(i & 15) == Eight(i)
  {}

  lemma Part6Right(i: bv32)
    requires i < 256 && i >> 4 == 6
    ensures Part6(i & 15) == Eight(i)
  {}

  lemma Part7Right(i: bv32)
    requires i < 256 && i >> 4 == 7
    ensures Part7(i & 15) == Eight(i)
  {}

  lemma Part8Right(i: bv32)
    requires i < 256 && i >> 4 == 8
    ensures Part8(i & 15) == Eight(i)
  {}

  lemma Part9Right(i: bv32)
    requires i < 256 && i >> 4 == 9
    ensures Part9(i & 15) == Eight(i)
  {}

  lemma PartARight(i: bv32)
    requires i < 256 && i >> 4 == 10
    ensures PartA(i & 15) == Eight(i)
  {}

  lemma PartBRight(i: bv32)
    requires i < 256 && i >> 4 == 11
    ensures PartB(i & 15) == Eight(i)
  {}

  lemma PartCRight(i: bv32)
    requires i < 256 && i >> 4 == 12
    ensures PartC(i & 15) == Eight(i)
  {}

  lemma PartDRight(i: bv32)
    requires i < 256 && i >> 4 == 13
    ensures PartD(i & 15) == Eight(i)
  {}

  lemma PartERight(i: bv32)
    requires i < 256 && i >> 4 == 14
    ensures PartE(i & 15) == Eight(i)
  {}

  lemma PartFRight(i: bv32)
    requires i < 256 && i >> 4 == 15
    ensures PartF(i & 15) == Eight(i)
  {}

  /** All 256 entries agree with the bit form. */
  lemma EntryIsEightSteps(i: bv32)
    requires i < 256
    ensures Entry(i) == Eight(i)
  {
    hide Part0, Part1, Part2, Part3, Part4, Part5, Part6, Part7, Part8, Part9, PartA, PartB, PartC, PartD, PartE, PartF, Eight;
    HighDigit(i);
    if i >> 4 == 0 {
      Part0Right(i);
    } else if i >> 4 == 1 {
      Part1Right(i);
    } else if i >> 4 == 2 {
      Part2Right(i);
    } else if i >> 4 == 3 {
      Part3Right(i);
    } else if i >> 4 == 4 {
      Part4Right(i);
    } else if i >> 4 == 5 {
      Part5Right(i);
    } else if i >> 4 == 6 {
      Part6Right(i);
    } else if i >> 4 == 7 {
      Part7Right(i);
    } else if i >> 4 == 8 {
      Part8Right(i);
    } else if i >> 4 == 9 {
      Part9Right(i);
    } else if i >> 4 == 10 {
      PartARight(i);
    } else if i >> 4 == 11 {
      PartBRight(i);
    } else if i >> 4 == 12 {
      PartCRight(i);
    } else if i >> 4 == 13 {
      PartDRight(i);
    } else if i >> 4 == 14 {
      PartERight(i);
    } else {
      PartFRight(i);
    }
  }

  lemma HighDigit(i: bv32)
    requires i < 256
    ensures i >> 4 < 16
  {}
}
