/** The two CRC tables, their update macros, and what they compute: bit-serial division. */
module Crc {

  import opened Basics

  // ----- The tables -----
  //
  // Sixteen entries a row, looked up by high and low nibble. Both tables are linear over
  // exclusive or, so each row is tied to the sum of the entries for the single bits of
  // its index (the ...Basis functions).

  function CrcTab(i: byte): bv16 {
    var hi, lo := i >> 4, i & 0x0f;
    if hi == 0 then CrcTabRow0(lo)
    else if hi == 1 then CrcTabRow1(lo)
    else if hi == 2 then CrcTabRow2(lo)
    else if hi == 3 then CrcTabRow3(lo)
    else if hi == 4 then CrcTabRow4(lo)
    else if hi == 5 then CrcTabRow5(lo)
    else if hi == 6 then CrcTabRow6(lo)
    else if hi == 7 then CrcTabRow7(lo)
    else if hi == 8 then CrcTabRow8(lo)
    else if hi == 9 then CrcTabRow9(lo)
    else if hi == 10 then CrcTabRowA(lo)
    else if hi == 11 then CrcTabRowB(lo)
    else if hi == 12 then CrcTabRowC(lo)
    else if hi == 13 then CrcTabRowD(lo)
    else if hi == 14 then CrcTabRowE(lo)
    else CrcTabRowF(lo)
  }

  function CrcTabRow0(lo: byte): (r: bv16)
    requires lo < 16
    ensures r == CrcTabBasis(lo | 0x00)
  {
    Pick16(lo,
      0x0000, 0x1021, 0x2042, 0x3063, 0x4084, 0x50a5, 0x60c6, 0x70e7,
      0x8108, 0x9129, 0xa14a, 0xb16b, 0xc18c, 0xd1ad, 0xe1ce, 0xf1ef)
  }

  function CrcTabRow1(lo: byte): (r: bv16)
    requires lo < 16
    ensures r == CrcTabBasis(lo | 0x10)
  {
    Pick16(lo,
      0x1231, 0x0210, 0x3273, 0x2252, 0x52b5, 0x4294, 0x72f7, 0x62d6,
      0x9339, 0x8318, 0xb37b, 0xa35a, 0xd3bd, 0xc39c, 0xf3ff, 0xe3de)
  }

  function CrcTabRow2(lo: byte): (r: bv16)
    requires lo < 16
    ensures r == CrcTabBasis(lo | 0x20)
  {
    Pick16(lo,
      0x2462, 0x3443, 0x0420, 0x1401, 0x64e6, 0x74c7, 0x44a4, 0x5485,
      0xa56a, 0xb54b, 0x8528, 0x9509, 0xe5ee, 0xf5cf, 0xc5ac, 0xd58d)
  }

  function CrcTabRow3(lo: byte): (r: bv16)
    requires lo < 16
    ensures r == CrcTabBasis(lo | 0x30)
  {
    Pick16(lo,
      0x3653, 0x2672, 0x1611, 0x0630, 0x76d7, 0x66f6, 0x5695, 0x46b4,
      0xb75b, 0xa77a, 0x9719, 0x8738, 0xf7df, 0xe7fe, 0xd79d, 0xc7bc)
  }

  function CrcTabRow4(lo: byte): (r: bv16)
    requires lo < 16
    ensures r == CrcTabBasis(lo | 0x40)
  {
    Pick16(lo,
      0x48c4, 0x58e5, 0x6886, 0x78a7, 0x0840, 0x1861, 0x2802, 0x3823,
      0xc9cc, 0xd9ed, 0xe98e, 0xf9af, 0x8948, 0x9969, 0xa90a, 0xb92b)
  }

  function CrcTabRow5(lo: byte): (r: bv16)
    requires lo < 16
    ensures r == CrcTabBasis(lo | 0x50)
  {
    Pick16(lo,
      0x5af5, 0x4ad4, 0x7ab7, 0x6a96, 0x1a71, 0x0a50, 0x3a33, 0x2a12,
      0xdbfd, 0xcbdc, 0xfbbf, 0xeb9e, 0x9b79, 0x8b58, 0xbb3b, 0xab1a)
  }

  function CrcTabRow6(lo: byte): (r: bv16)
    requires lo < 16
    ensures r == CrcTabBasis(lo | 0x60)
  {
    Pick16(lo,
      0x6ca6, 0x7c87, 0x4ce4, 0x5cc5, 0x2c22, 0x3c03, 0x0c60, 0x1c41,
      0xedae, 0xfd8f, 0xcdec, 0xddcd, 0xad2a, 0xbd0b, 0x8d68, 0x9d49)
  }

  function CrcTabRow7(lo: byte): (r: bv16)
    requires lo < 16
    ensures r == CrcTabBasis(lo | 0x70)
  {
    Pick16(lo,
      0x7e97, 0x6eb6, 0x5ed5, 0x4ef4, 0x3e13, 0x2e32, 0x1e51, 0x0e70,
      0xff9f, 0xefbe, 0xdfdd, 0xcffc, 0xbf1b, 0xaf3a, 0x9f59, 0x8f78)
  }

  function CrcTabRow8(lo: byte): (r: bv16)
    requires lo < 16
    ensures r == CrcTabBasis(lo | 0x80)
  {
    Pick16(lo,
      0x9188, 0x81a9, 0xb1ca, 0xa1eb, 0xd10c, 0xc12d, 0xf14e, 0xe16f,
      0x1080, 0x00a1, 0x30c2, 0x20e3, 0x5004, 0x4025, 0x7046, 0x6067)
  }

  function CrcTabRow9(lo: byte): (r: bv16)
    requires lo < 16
    ensures r == CrcTabBasis(lo | 0x90)
  {
    Pick16(lo,
      0x83b9, 0x9398, 0xa3fb, 0xb3da, 0xc33d, 0xd31c, 0xe37f, 0xf35e,
      0x02b1, 0x1290, 0x22f3, 0x32d2, 0x4235, 0x5214, 0x6277, 0x7256)
  }

  function CrcTabRowA(lo: byte): (r: bv16)
    requires lo < 16
    ensures r == CrcTabBasis(lo | 0xa0)
  {
    Pick16(lo,
      0xb5ea, 0xa5cb, 0x95a8, 0x8589, 0xf56e, 0xe54f, 0xd52c, 0xc50d,
      0x34e2, 0x24c3, 0x14a0, 0x0481, 0x7466, 0x6447, 0x5424, 0x4405)
  }

  function CrcTabRowB(lo: byte): (r: bv16)
    requires lo < 16
    ensures r == CrcTabBasis(lo | 0xb0)
  {
    Pick16(lo,
      0xa7db, 0xb7fa, 0x8799, 0x97b8, 0xe75f, 0xf77e, 0xc71d, 0xd73c,
      0x26d3, 0x36f2, 0x0691, 0x16b0, 0x6657, 0x7676, 0x4615, 0x5634)
  }

  function CrcTabRowC(lo: byte): (r: bv16)
    requires lo < 16
    ensures r == CrcTabBasis(lo | 0xc0)
  {
    Pick16(lo,
      0xd94c, 0xc96d, 0xf90e, 0xe92f, 0x99c8, 0x89e9, 0xb98a, 0xa9ab,
      0x5844, 0x4865, 0x7806, 0x6827, 0x18c0, 0x08e1, 0x3882, 0x28a3)
  }

  function CrcTabRowD(lo: byte): (r: bv16)
    requires lo < 16
    ensures r == CrcTabBasis(lo | 0xd0)
  {
    Pick16(lo,
      0xcb7d, 0xdb5c, 0xeb3f, 0xfb1e, 0x8bf9, 0x9bd8, 0xabbb, 0xbb9a,
      0x4a75, 0x5a54, 0x6a37, 0x7a16, 0x0af1, 0x1ad0, 0x2ab3, 0x3a92)
  }

  function CrcTabRowE(lo: byte): (r: bv16)
    requires lo < 16
    ensures r == CrcTabBasis(lo | 0xe0)
  {
    Pick16(lo,
      0xfd2e, 0xed0f, 0xdd6c, 0xcd4d, 0xbdaa, 0xad8b, 0x9de8, 0x8dc9,
      0x7c26, 0x6c07, 0x5c64, 0x4c45, 0x3ca2, 0x2c83, 0x1ce0, 0x0cc1)
  }

  function CrcTabRowF(lo: byte): (r: bv16)
    requires lo < 16
    ensures r == CrcTabBasis(lo | 0xf0)
  {
    Pick16(lo,
      0xef1f, 0xff3e, 0xcf5d, 0xdf7c, 0xaf9b, 0xbfba, 0x8fd9, 0x9ff8,
      0x6e17, 0x7e36, 0x4e55, 0x5e74, 0x2e93, 0x3eb2, 0x0ed1, 0x1ef0)
  }

  function CrcTabBasis(i: byte): bv16 {
    (if i & 0x01 != 0 then 0x1021 else 0) ^
    (if i & 0x02 != 0 then 0x2042 else 0) ^
    (if i & 0x04 != 0 then 0x4084 else 0) ^
    (if i & 0x08 != 0 then 0x8108 else 0) ^
    (if i & 0x10 != 0 then 0x1231 else 0) ^
    (if i & 0x20 != 0 then 0x2462 else 0) ^
    (if i & 0x40 != 0 then 0x48c4 else 0) ^
    (if i & 0x80 != 0 then 0x9188 else 0)
  }

  lemma CrcTabIsBasis(i: byte)
    ensures CrcTab(i) == CrcTabBasis(i)
  {
    assert i == (i & 0x0f) | (i & 0xf0);
  }

  function Pick16(lo: byte, v0: bv16, v1: bv16, v2: bv16, v3: bv16, v4: bv16, v5: bv16, v6: bv16, v7: bv16,
                  v8: bv16, v9: bv16, va: bv16, vb: bv16, vc: bv16, vd: bv16, ve: bv16, vf: bv16): bv16 {
    if lo == 0 then v0
    else if lo == 1 then v1
    else if lo == 2 then v2
    else if lo == 3 then v3
    else if lo == 4 then v4
    else if lo == 5 then v5
    else if lo == 6 then v6
    else if lo == 7 then v7
    else if lo == 8 then v8
    else if lo == 9 then v9
    else if lo == 10 then va
    else if lo == 11 then vb
    else if lo == 12 then vc
    else if lo == 13 then vd
    else if lo == 14 then ve
    else vf
  }

  function Cr3Tab(i: byte): bv32 {
    var hi, lo := i >> 4, i & 0x0f;
    if hi == 0 then Cr3TabRow0(lo)
    else if hi == 1 then Cr3TabRow1(lo)
    else if hi == 2 then Cr3TabRow2(lo)
    else if hi == 3 then Cr3TabRow3(lo)
    else if hi == 4 then Cr3TabRow4(lo)
    else if hi == 5 then Cr3TabRow5(lo)
    else if hi == 6 then Cr3TabRow6(lo)
    else if hi == 7 then Cr3TabRow7(lo)
    else if hi == 8 then Cr3TabRow8(lo)
    else if hi == 9 then Cr3TabRow9(lo)
    else if hi == 10 then Cr3TabRowA(lo)
    else if hi == 11 then Cr3TabRowB(lo)
    else if hi == 12 then Cr3TabRowC(lo)
    else if hi == 13 then Cr3TabRowD(lo)
    else if hi == 14 then Cr3TabRowE(lo)
    else Cr3TabRowF(lo)
  }

  function Cr3TabRow0(lo: byte): (r: bv32)
    requires lo < 16
    ensures r == Cr3TabBasis(lo | 0x00)
  {
    Pick32(lo,
      0x00000000, 0x77073096, 0xee0e612c, 0x990951ba,
      0x076dc419, 0x706af48f, 0xe963a535, 0x9e6495a3,
      0x0edb8832, 0x79dcb8a4, 0xe0d5e91e, 0x97d2d988,
      0x09b64c2b, 0x7eb17cbd, 0xe7b82d07, 0x90bf1d91)
  }

  function Cr3TabRow1(lo: byte): (r: bv32)
    requires lo < 16
    ensures r == Cr3TabBasis(lo | 0x10)
  {
    Pick32(lo,
      0x1db71064, 0x6ab020f2, 0xf3b97148, 0x84be41de,
      0x1adad47d, 0x6ddde4eb, 0xf4d4b551, 0x83d385c7,
      0x136c9856, 0x646ba8c0, 0xfd62f97a, 0x8a65c9ec,
      0x14015c4f, 0x63066cd9, 0xfa0f3d63, 0x8d080df5)
  }

  function Cr3TabRow2(lo: byte): (r: bv32)
    requires lo < 16
    ensures r == Cr3TabBasis(lo | 0x20)
  {
    Pick32(lo,
      0x3b6e20c8, 0x4c69105e, 0xd56041e4, 0xa2677172,
      0x3c03e4d1, 0x4b04d447, 0xd20d85fd, 0xa50ab56b,
      0x35b5a8fa, 0x42b2986c, 0xdbbbc9d6, 0xacbcf940,
      0x32d86ce3, 0x45df5c75, 0xdcd60dcf, 0xabd13d59)
  }

  function Cr3TabRow3(lo: byte): (r: bv32)
    requires lo < 16
    ensures r == Cr3TabBasis(lo | 0x30)
  {
    Pick32(lo,
      0x26d930ac, 0x51de003a, 0xc8d75180, 0xbfd06116,
      0x21b4f4b5, 0x56b3c423, 0xcfba9599, 0xb8bda50f,
      0x2802b89e, 0x5f058808, 0xc60cd9b2, 0xb10be924,
      0x2f6f7c87, 0x58684c11, 0xc1611dab, 0xb6662d3d)
  }

  function Cr3TabRow4(lo: byte): (r: bv32)
    requires lo < 16
    ensures r == Cr3TabBasis(lo | 0x40)
  {
    Pick32(lo,
      0x76dc4190, 0x01db7106, 0x98d220bc, 0xefd5102a,
      0x71b18589, 0x06b6b51f, 0x9fbfe4a5, 0xe8b8d433,
      0x7807c9a2, 0x0f00f934, 0x9609a88e, 0xe10e9818,
      0x7f6a0dbb, 0x086d3d2d, 0x91646c97, 0xe6635c01)
  }

  function Cr3TabRow5(lo: byte): (r: bv32)
    requires lo < 16
    ensures r == Cr3TabBasis(lo | 0x50)
  {
    Pick32(lo,
      0x6b6b51f4, 0x1c6c6162, 0x856530d8, 0xf262004e,
      0x6c0695ed, 0x1b01a57b, 0x8208f4c1, 0xf50fc457,
      0x65b0d9c6, 0x12b7e950, 0x8bbeb8ea, 0xfcb9887c,
      0x62dd1ddf, 0x15da2d49, 0x8cd37cf3, 0xfbd44c65)
  }

  function Cr3TabRow6(lo: byte): (r: bv32)
    requires lo < 16
    ensures r == Cr3TabBasis(lo | 0x60)
  {
    Pick32(lo,
      0x4db26158, 0x3ab551ce, 0xa3bc0074, 0xd4bb30e2,
      0x4adfa541, 0x3dd895d7, 0xa4d1c46d, 0xd3d6f4fb,
      0x4369e96a, 0x346ed9fc, 0xad678846, 0xda60b8d0,
      0x44042d73, 0x33031de5, 0xaa0a4c5f, 0xdd0d7cc9)
  }

  function Cr3TabRow7(lo: byte): (r: bv32)
    requires lo < 16
    ensures r == Cr3TabBasis(lo | 0x70)
  {
    Pick32(lo,
      0x5005713c, 0x270241aa, 0xbe0b1010, 0xc90c2086,
      0x5768b525, 0x206f85b3, 0xb966d409, 0xce61e49f,
      0x5edef90e, 0x29d9c998, 0xb0d09822, 0xc7d7a8b4,
      0x59b33d17, 0x2eb40d81, 0xb7bd5c3b, 0xc0ba6cad)
  }

  function Cr3TabRow8(lo: byte): (r: bv32)
    requires lo < 16
    ensures r == Cr3TabBasis(lo | 0x80)
  {
    Pick32(lo,
      0xedb88320, 0x9abfb3b6, 0x03b6e20c, 0x74b1d29a,
      0xead54739, 0x9dd277af, 0x04db2615, 0x73dc1683,
      0xe3630b12, 0x94643b84, 0x0d6d6a3e, 0x7a6a5aa8,
      0xe40ecf0b, 0x9309ff9d, 0x0a00ae27, 0x7d079eb1)
  }

  function Cr3TabRow9(lo: byte): (r: bv32)
    requires lo < 16
    ensures r == Cr3TabBasis(lo | 0x90)
  {
    Pick32(lo,
      0xf00f9344, 0x8708a3d2, 0x1e01f268, 0x6906c2fe,
      0xf762575d, 0x806567cb, 0x196c3671, 0x6e6b06e7,
      0xfed41b76, 0x89d32be0, 0x10da7a5a, 0x67dd4acc,
      0xf9b9df6f, 0x8ebeeff9, 0x17b7be43, 0x60b08ed5)
  }

  function Cr3TabRowA(lo: byte): (r: bv32)
    requires lo < 16
    ensures r == Cr3TabBasis(lo | 0xa0)
  {
    Pick32(lo,
      0xd6d6a3e8, 0xa1d1937e, 0x38d8c2c4, 0x4fdff252,
      0xd1bb67f1, 0xa6bc5767, 0x3fb506dd, 0x48b2364b,
      0xd80d2bda, 0xaf0a1b4c, 0x36034af6, 0x41047a60,
      0xdf60efc3, 0xa867df55, 0x316e8eef, 0x4669be79)
  }

  function Cr3TabRowB(lo: byte): (r: bv32)
    requires lo < 16
    ensures r == Cr3TabBasis(lo | 0xb0)
  {
    Pick32(lo,
      0xcb61b38c, 0xbc66831a, 0x256fd2a0, 0x5268e236,
      0xcc0c7795, 0xbb0b4703, 0x220216b9, 0x5505262f,
      0xc5ba3bbe, 0xb2bd0b28, 0x2bb45a92, 0x5cb36a04,
      0xc2d7ffa7, 0xb5d0cf31, 0x2cd99e8b, 0x5bdeae1d)
  }

  function Cr3TabRowC(lo: byte): (r: bv32)
    requires lo < 16
    ensures r == Cr3TabBasis(lo | 0xc0)
  {
    Pick32(lo,
      0x9b64c2b0, 0xec63f226, 0x756aa39c, 0x026d930a,
      0x9c0906a9, 0xeb0e363f, 0x72076785, 0x05005713,
      0x95bf4a82, 0xe2b87a14, 0x7bb12bae, 0x0cb61b38,
      0x92d28e9b, 0xe5d5be0d, 0x7cdcefb7, 0x0bdbdf21)
  }

  function Cr3TabRowD(lo: byte): (r: bv32)
    requires lo < 16
    ensures r == Cr3TabBasis(lo | 0xd0)
  {
    Pick32(lo,
      0x86d3d2d4, 0xf1d4e242, 0x68ddb3f8, 0x1fda836e,
      0x81be16cd, 0xf6b9265b, 0x6fb077e1, 0x18b74777,
      0x88085ae6, 0xff0f6a70, 0x66063bca, 0x11010b5c,
      0x8f659eff, 0xf862ae69, 0x616bffd3, 0x166ccf45)
  }

  function Cr3TabRowE(lo: byte): (r: bv32)
    requires lo < 16
    ensures r == Cr3TabBasis(lo | 0xe0)
  {
    Pick32(lo,
      0xa00ae278, 0xd70dd2ee, 0x4e048354, 0x3903b3c2,
      0xa7672661, 0xd06016f7, 0x4969474d, 0x3e6e77db,
      0xaed16a4a, 0xd9d65adc, 0x40df0b66, 0x37d83bf0,
      0xa9bcae53, 0xdebb9ec5, 0x47b2cf7f, 0x30b5ffe9)
  }

  function Cr3TabRowF(lo: byte): (r: bv32)
    requires lo < 16
    ensures r == Cr3TabBasis(lo | 0xf0)
  {
    Pick32(lo,
      0xbdbdf21c, 0xcabac28a, 0x53b39330, 0x24b4a3a6,
      0xbad03605, 0xcdd70693, 0x54de5729, 0x23d967bf,
      0xb3667a2e, 0xc4614ab8, 0x5d681b02, 0x2a6f2b94,
      0xb40bbe37, 0xc30c8ea1, 0x5a05df1b, 0x2d02ef8d)
  }

  function Cr3TabBasis(i: byte): bv32 {
    (if i & 0x01 != 0 then 0x77073096 else 0) ^
    (if i & 0x02 != 0 then 0xee0e612c else 0) ^
    (if i & 0x04 != 0 then 0x076dc419 else 0) ^
    (if i & 0x08 != 0 then 0x0edb8832 else 0) ^
    (if i & 0x10 != 0 then 0x1db71064 else 0) ^
    (if i & 0x20 != 0 then 0x3b6e20c8 else 0) ^
    (if i & 0x40 != 0 then 0x76dc4190 else 0) ^
    (if i & 0x80 != 0 then 0xedb88320 else 0)
  }

  lemma Cr3TabIsBasis(i: byte)
    ensures Cr3Tab(i) == Cr3TabBasis(i)
  {
    assert i == (i & 0x0f) | (i & 0xf0);
  }

  function Pick32(lo: byte, v0: bv32, v1: bv32, v2: bv32, v3: bv32, v4: bv32, v5: bv32, v6: bv32, v7: bv32,
                  v8: bv32, v9: bv32, va: bv32, vb: bv32, vc: bv32, vd: bv32, ve: bv32, vf: bv32): bv32 {
    if lo == 0 then v0
    else if lo == 1 then v1
    else if lo == 2 then v2
    else if lo == 3 then v3
    else if lo == 4 then v4
    else if lo == 5 then v5
    else if lo == 6 then v6
    else if lo == 7 then v7
    else if lo == 8 then v8
    else if lo == 9 then v9
    else if lo == 10 then va
    else if lo == 11 then vb
    else if lo == 12 then vc
    else if lo == 13 then vd
    else if lo == 14 then ve
    else vf
  }

  // ----- The update macros -----

  /** `updcrc`: the data byte enters at the low end of the register. */
  function UpdCrc(b: byte, crc: bv16): bv16 {
    Mix16(CrcTab(Index16(crc)), crc, b)
  }

  function Index16(crc: bv16): byte { (crc >> 8) as bv8 }

  function Mix16(t: bv16, crc: bv16, b: byte): bv16 { t ^ (crc << 8) ^ (b as bv16) }

  /** `UPDC32`: the register shifts right. */
  function UpdCrc32(b: byte, crc: bv32): bv32 {
    Xor32(Cr3Tab(Index32(b, crc)), Shr8(crc))
  }

  function Index32(b: byte, crc: bv32): byte { (crc & 0xff) as bv8 ^ b }

  function Shr8(crc: bv32): bv32 { crc >> 8 }

  function Xor32(x: bv32, y: bv32): bv32 { x ^ y }

  function Crc16Over(msg: seq<byte>, crc: bv16): bv16 {
    if msg == [] then crc else UpdCrc(msg[|msg| - 1], Crc16Over(msg[..|msg| - 1], crc))
  }

  function Crc32Over(msg: seq<byte>, crc: bv32): bv32 {
    if msg == [] then crc else UpdCrc32(msg[|msg| - 1], Crc32Over(msg[..|msg| - 1], crc))
  }

  // ----- Bit-serial shift registers -----

  /** One clock of the x^16 + x^12 + x^5 + 1 register, most significant bit first. */
  function Clock16(reg: bv16, bit: bool): bv16 {
    (reg << 1) ^ (if bit then 1 else 0) ^ (if reg & 0x8000 != 0 then 0x1021 else 0)
  }

  function Serial16(reg: bv16, b: byte): bv16 {
    var r1 := Clock16(reg, b & 0x80 != 0);
    var r2 := Clock16(r1, b & 0x40 != 0);
    var r3 := Clock16(r2, b & 0x20 != 0);
    var r4 := Clock16(r3, b & 0x10 != 0);
    var r5 := Clock16(r4, b & 0x08 != 0);
    var r6 := Clock16(r5, b & 0x04 != 0);
    var r7 := Clock16(r6, b & 0x02 != 0);
    Clock16(r7, b & 0x01 != 0)
  }

  function Division16(msg: seq<byte>, reg: bv16): bv16 {
    if msg == [] then reg else Division16(msg[1..], Serial16(reg, msg[0]))
  }

  /** One clock of the reflected 32-bit register, least significant bit first. */
  function Clock32(reg: bv32, bit: bool): bv32 {
    (reg >> 1) ^ (if (reg & 1 != 0) != bit then 0xedb88320 else 0)
  }

  function Clocks2(reg: bv32, p: bool, q: bool): bv32 {
    Clock32(Clock32(reg, p), q)
  }

  function Clocks4(reg: bv32, p: bool, q: bool, s: bool, t: bool): bv32 {
    Clocks2(Clocks2(reg, p, q), s, t)
  }

  function Serial32(reg: bv32, b: byte): bv32 {
    Clocks4(Clocks4(reg, b & 0x01 != 0, b & 0x02 != 0, b & 0x04 != 0, b & 0x08 != 0),
            b & 0x10 != 0, b & 0x20 != 0, b & 0x40 != 0, b & 0x80 != 0)
  }

  function Division32(msg: seq<byte>, reg: bv32): bv32 {
    if msg == [] then reg else Division32(msg[1..], Serial32(reg, msg[0]))
  }

  // ----- The 16-bit CRC is that division -----

  lemma UpdCrcIsSerial(b: byte, crc: bv16)
    ensures UpdCrc(b, crc) == Serial16(crc, b)
  {
    CrcTabIsBasis((crc >> 8) as bv8);
  }

  lemma {:induction false} Crc16Cons(msg: seq<byte>, crc: bv16)
    requires msg != []
    ensures Crc16Over(msg, crc) == Crc16Over(msg[1..], UpdCrc(msg[0], crc))
  {
    hide UpdCrc;
    var last := |msg| - 1;
    if last > 0 {
      Crc16Cons(msg[..last], crc);
      assert msg[..last][1..] == msg[1..][..last - 1];
    } else {
      assert msg[..last] == [];
    }
  }

  /** For every message, folding the table macro equals dividing bit by bit. */
  lemma {:induction false} Crc16IsDivision(msg: seq<byte>, crc: bv16)
    ensures Crc16Over(msg, crc) == Division16(msg, crc)
  {
    hide UpdCrc, Serial16;
    if msg != [] {
      UpdCrcIsSerial(msg[0], crc);
      Crc16IsDivision(msg[1..], UpdCrc(msg[0], crc));
      Crc16Cons(msg, crc);
    }
  }

  ghost predicate PlusByte(y: bv16, x: bv16, d: byte) {
    y == x ^ (d as bv16)
  }

  ghost predicate PlusWord(y: bv16, x: bv16, hi: byte, lo: byte) {
    y == x ^ ((hi as bv16) << 8) ^ (lo as bv16)
  }

  lemma UpdCrcByte(b: byte, x: bv16)
    ensures PlusByte(UpdCrc(b, x), UpdCrc(0, x), b)
  {
    hide CrcTab;
  }

  lemma MixShifted(t: bv16, b: byte, d: byte, x: bv16, y: bv16)
    requires PlusByte(y, x, d)
    ensures Index16(y) == Index16(x)
    ensures PlusWord(Mix16(t, y, b), Mix16(t, x, 0), d, b)
  {
  }

  /** A byte in the low end of the register reaches the high end without feedback. */
  lemma UpdCrcShifted(b: byte, d: byte, x: bv16, y: bv16)
    requires PlusByte(y, x, d)
    ensures PlusWord(UpdCrc(b, y), UpdCrc(0, x), d, b)
  {
    hide CrcTab, Index16, Mix16, PlusByte, PlusWord;
    MixShifted(CrcTab(Index16(x)), b, d, x, y);
  }

  lemma PlusWordSelf(y: bv16, c: bv16)
    requires PlusWord(y, c, (c >> 8) as bv8, (c & 0xff) as bv8)
    ensures y == 0
  {
  }

  lemma ResidueStep16(crc: bv16, c: bv16)
    requires c == UpdCrc(0, UpdCrc(0, crc))
    ensures UpdCrc((c & 0xff) as bv8, UpdCrc((c >> 8) as bv8, crc)) == 0
  {
    hide UpdCrc, PlusByte, PlusWord;
    var hi, lo := (c >> 8) as bv8, (c & 0xff) as bv8;
    UpdCrcByte(hi, crc);
    UpdCrcShifted(lo, hi, UpdCrc(0, crc), UpdCrc(hi, crc));
    PlusWordSelf(UpdCrc(lo, UpdCrc(hi, crc)), c);
  }

  /** The two bytes `zsbhdr`, `zshhdr` and `zsdata` send after a message. */
  function Fcs16(msg: seq<byte>): seq<byte> {
    HighFirst(UpdCrc(0, UpdCrc(0, Crc16Over(msg, 0))))
  }

  /** A message followed by its emitted 16-bit CRC always leaves residue 0. */
  lemma Residue16(msg: seq<byte>)
    ensures Crc16Over(msg + Fcs16(msg), 0) == 0
  {
    hide UpdCrc;
    var crc := Crc16Over(msg, 0);
    var c := UpdCrc(0, UpdCrc(0, crc));
    var m1 := msg + [(c >> 8) as bv8];
    var m2 := m1 + [(c & 0xff) as bv8];
    assert m2 == msg + Fcs16(msg);
    assert m2[..|m2| - 1] == m1 && m1[..|m1| - 1] == msg;
    ResidueStep16(crc, c);
  }

  // ----- The 32-bit CRC is that division -----

  ghost predicate Sum(r: bv32, a: bv32, b: bv32) {
    r == Xor32(a, b)
  }

  lemma Clock32BothOdd(a: bv32, b: bv32, s: bool, t: bool)
    requires (a & 1 != 0) != s && (b & 1 != 0) != t
    ensures Clock32(a ^ b, s != t) == Clock32(a, s) ^ Clock32(b, t)
  {
  }

  lemma Clock32OneOdd(a: bv32, b: bv32, s: bool, t: bool)
    requires (a & 1 != 0) != s && (b & 1 != 0) == t
    ensures Clock32(a ^ b, s != t) == Clock32(a, s) ^ Clock32(b, t)
    ensures Clock32(b ^ a, t != s) == Clock32(b, t) ^ Clock32(a, s)
  {
  }

  lemma Clock32BothEven(a: bv32, b: bv32, s: bool, t: bool)
    requires (a & 1 != 0) == s && (b & 1 != 0) == t
    ensures Clock32(a ^ b, s != t) == Clock32(a, s) ^ Clock32(b, t)
  {
  }

  /** The register is linear over exclusive or. */
  lemma Clock32Linear(a: bv32, b: bv32, s: bool, t: bool)
    ensures Clock32(a ^ b, s != t) == Clock32(a, s) ^ Clock32(b, t)
  {
    if (a & 1 != 0) != s {
      if (b & 1 != 0) != t { Clock32BothOdd(a, b, s, t); } else { Clock32OneOdd(a, b, s, t); }
    } else {
      if (b & 1 != 0) != t { Clock32OneOdd(b, a, t, s); } else { Clock32BothEven(a, b, s, t); }
    }
  }

  lemma Clock32Add(r: bv32, a: bv32, h: bv32, p: bool)
    requires Sum(r, a, h)
    ensures Sum(Clock32(r, p), Clock32(a, p), Clock32(h, false))
  {
    Clock32Linear(a, h, p, false);
  }

  lemma Clocks4Add(r: bv32, a: bv32, h: bv32, p: bool, q: bool, s: bool, t: bool)
    requires Sum(r, a, h)
    ensures Sum(Clocks4(r, p, q, s, t), Clocks4(a, p, q, s, t), Clocks4(h, false, false, false, false))
  {
    hide Sum, Clock32;
    Clock32Add(r, a, h, p);
    Clock32Add(Clock32(r, p), Clock32(a, p), Clock32(h, false), q);
    var r', a', h' := Clocks2(r, p, q), Clocks2(a, p, q), Clocks2(h, false, false);
    Clock32Add(r', a', h', s);
    Clock32Add(Clock32(r', s), Clock32(a', s), Clock32(h', false), t);
  }

  lemma Serial32Add(r: bv32, a: bv32, h: bv32, b: byte)
    requires Sum(r, a, h)
    ensures Sum(Serial32(r, b), Serial32(a, b), Serial32(h, 0))
  {
    hide Sum, Clocks4;
    var p, q, s, t := b & 1 != 0, b & 2 != 0, b & 4 != 0, b & 8 != 0;
    Clocks4Add(r, a, h, p, q, s, t);
    Clocks4Add(Clocks4(r, p, q, s, t), Clocks4(a, p, q, s, t), Clocks4(h, false, false, false, false),
               b & 0x10 != 0, b & 0x20 != 0, b & 0x40 != 0, b & 0x80 != 0);
  }

  lemma Serial32OfHigh(h: bv32)
    requires h & 0xff == 0
    ensures Serial32(h, 0) == Shr8(h)
  {
  }

  lemma ClockSame(r: bv32, s: bv32, bit: bool)
    requires s == r >> 1 && (r & 1 != 0) == bit
    ensures Clock32(r, bit) == s
  {
  }

  lemma SameBits(b: byte, r: bv32)
    requires r == b as bv32
    ensures (r & 1 != 0) == (b & 0x01 != 0) && ((r >> 1) & 1 != 0) == (b & 0x02 != 0)
    ensures ((r >> 2) & 1 != 0) == (b & 0x04 != 0) && ((r >> 3) & 1 != 0) == (b & 0x08 != 0)
    ensures ((r >> 4) & 1 != 0) == (b & 0x10 != 0) && ((r >> 5) & 1 != 0) == (b & 0x20 != 0)
    ensures ((r >> 6) & 1 != 0) == (b & 0x40 != 0) && ((r >> 7) & 1 != 0) == (b & 0x80 != 0)
    ensures r >> 8 == 0
  {
  }

  lemma ShiftSteps(r: bv32)
    ensures r >> 2 == (r >> 1) >> 1 && r >> 3 == (r >> 2) >> 1 && r >> 4 == (r >> 3) >> 1 && r >> 5 == (r >> 4) >> 1
    ensures r >> 6 == (r >> 5) >> 1 && r >> 7 == (r >> 6) >> 1 && r >> 8 == (r >> 7) >> 1
  {
  }

  /** A byte clocked into a register that holds it meets itself bit by bit. */
  lemma Serial32OfSame(b: byte)
    ensures Serial32(b as bv32, b) == 0
  {
    hide Clock32;
    var r := b as bv32;
    SameBits(b, r);
    ShiftSteps(r);
    ClockSame(r, r >> 1, b & 0x01 != 0);
    ClockSame(r >> 1, r >> 2, b & 0x02 != 0);
    ClockSame(r >> 2, r >> 3, b & 0x04 != 0);
    ClockSame(r >> 3, r >> 4, b & 0x08 != 0);
    ClockSame(r >> 4, r >> 5, b & 0x10 != 0);
    ClockSame(r >> 5, r >> 6, b & 0x20 != 0);
    ClockSame(r >> 6, r >> 7, b & 0x40 != 0);
    ClockSame(r >> 7, r >> 8, b & 0x80 != 0);
  }

  /** Clocking a byte in equals adding it to the register first and clocking eight zeros. */
  lemma Serial32Absorbs(r: bv32, b: byte)
    ensures Serial32(r, b) == Serial32(Xor32(r, b as bv32), 0)
  {
    hide Serial32;
    var x := Xor32(r, b as bv32);
    assert Sum(r, b as bv32, x);
    Serial32Add(r, b as bv32, x, b);
    Serial32OfSame(b);
  }

  ghost predicate EntryIsSerial(i: byte) {
    Cr3TabBasis(i) == Serial32(i as bv32, 0)
  }

  lemma SingleBit(v: byte)
    requires v == 0x00 || v == 0x01 || v == 0x02 || v == 0x04 || v == 0x08 || v == 0x10 || v == 0x20 || v == 0x40 || v == 0x80
    ensures EntryIsSerial(v)
  {
    assert Cr3TabBasis(0x00) == Serial32(0x00, 0);
    assert Cr3TabBasis(0x01) == Serial32(0x01, 0);
    assert Cr3TabBasis(0x02) == Serial32(0x02, 0);
    assert Cr3TabBasis(0x04) == Serial32(0x04, 0);
    assert Cr3TabBasis(0x08) == Serial32(0x08, 0);
    assert Cr3TabBasis(0x10) == Serial32(0x10, 0);
    assert Cr3TabBasis(0x20) == Serial32(0x20, 0);
    assert Cr3TabBasis(0x40) == Serial32(0x40, 0);
    assert Cr3TabBasis(0x80) == Serial32(0x80, 0);
  }

  lemma BasisNibbles(i: byte)
    ensures Cr3TabBasis(i) == Xor32(Cr3TabBasis(i & 0x0f), Cr3TabBasis(i & 0xf0))
  {
  }

  lemma BasisPairs(i: byte)
    ensures Cr3TabBasis(i) == Xor32(Cr3TabBasis(i & 0x33), Cr3TabBasis(i & 0xcc))
  {
  }

  lemma BasisBits(i: byte)
    ensures Cr3TabBasis(i) == Xor32(Cr3TabBasis(i & 0x55), Cr3TabBasis(i & 0xaa))
  {
  }

  lemma BasisSplits(i: byte, m: byte, n: byte)
    requires (m == 0x0f && n == 0xf0) || (m == 0x33 && n == 0xcc) || (m == 0x55 && n == 0xaa)
    ensures Cr3TabBasis(i) == Xor32(Cr3TabBasis(i & m), Cr3TabBasis(i & n))
  {
    hide Cr3TabBasis, Xor32;
    BasisNibbles(i);
    BasisPairs(i);
    BasisBits(i);
  }

  lemma ByteSplits(i: byte, m: byte, n: byte)
    requires (m == 0x0f && n == 0xf0) || (m == 0x33 && n == 0xcc) || (m == 0x55 && n == 0xaa)
    ensures Sum(i as bv32, (i & m) as bv32, (i & n) as bv32)
  {
  }

  lemma EntrySplits(i: byte, m: byte, n: byte)
    requires (m == 0x0f && n == 0xf0) || (m == 0x33 && n == 0xcc) || (m == 0x55 && n == 0xaa)
    requires EntryIsSerial(i & m) && EntryIsSerial(i & n)
    ensures EntryIsSerial(i)
  {
    hide Cr3TabBasis, Serial32, Xor32;
    BasisSplits(i, m, n);
    ByteSplits(i, m, n);
    Serial32Add(i as bv32, (i & m) as bv32, (i & n) as bv32, 0);
  }

  lemma BitsOf(i: byte)
    ensures (((i & 0x0f) & 0x33) & 0x55) == 0 || (((i & 0x0f) & 0x33) & 0x55) == 0x01
    ensures (((i & 0x0f) & 0x33) & 0xaa) == 0 || (((i & 0x0f) & 0x33) & 0xaa) == 0x02
    ensures (((i & 0x0f) & 0xcc) & 0x55) == 0 || (((i & 0x0f) & 0xcc) & 0x55) == 0x04
    ensures (((i & 0x0f) & 0xcc) & 0xaa) == 0 || (((i & 0x0f) & 0xcc) & 0xaa) == 0x08
    ensures (((i & 0xf0) & 0x33) & 0x55) == 0 || (((i & 0xf0) & 0x33) & 0x55) == 0x10
    ensures (((i & 0xf0) & 0x33) & 0xaa) == 0 || (((i & 0xf0) & 0x33) & 0xaa) == 0x20
    ensures (((i & 0xf0) & 0xcc) & 0x55) == 0 || (((i & 0xf0) & 0xcc) & 0x55) == 0x40
    ensures (((i & 0xf0) & 0xcc) & 0xaa) == 0 || (((i & 0xf0) & 0xcc) & 0xaa) == 0x80
  {
  }

  lemma PairIsSerial(x: byte)
    requires (x & 0x55 == 0 || x & 0x55 == 0x01 || x & 0x55 == 0x04 || x & 0x55 == 0x10 || x & 0x55 == 0x40)
    requires (x & 0xaa == 0 || x & 0xaa == 0x02 || x & 0xaa == 0x08 || x & 0xaa == 0x20 || x & 0xaa == 0x80)
    ensures EntryIsSerial(x)
  {
    hide EntryIsSerial;
    SingleBit(x & 0x55);
    SingleBit(x & 0xaa);
    EntrySplits(x, 0x55, 0xaa);
  }

  lemma BasisIsSerial(i: byte)
    ensures Cr3TabBasis(i) == Serial32(i as bv32, 0)
  {
    hide Cr3TabBasis, Serial32;
    BitsOf(i);
    var lo, hi := i & 0x0f, i & 0xf0;
    PairIsSerial(lo & 0x33);
    PairIsSerial(lo & 0xcc);
    PairIsSerial(hi & 0x33);
    PairIsSerial(hi & 0xcc);
    EntrySplits(lo, 0x33, 0xcc);
    EntrySplits(hi, 0x33, 0xcc);
    EntrySplits(i, 0x0f, 0xf0);
  }

  lemma Cr3TabIsSerial(i: byte)
    ensures Cr3Tab(i) == Serial32(i as bv32, 0)
  {
    hide Cr3Tab, Cr3TabBasis, Serial32;
    Cr3TabIsBasis(i);
    BasisIsSerial(i);
  }

  lemma SplitLowByte(crc: bv32, b: byte)
    ensures Sum(Xor32(crc, b as bv32), Index32(b, crc) as bv32, crc & 0xffffff00)
    ensures (crc & 0xffffff00) & 0xff == 0
    ensures Shr8(crc & 0xffffff00) == Shr8(crc)
  {
  }

  lemma UpdCrc32IsSerial(b: byte, crc: bv32)
    ensures UpdCrc32(b, crc) == Serial32(crc, b)
  {
    hide Serial32, Cr3Tab, Sum, Xor32, Index32, Shr8;
    var i, high := Index32(b, crc), crc & 0xffffff00;
    SplitLowByte(crc, b);
    Serial32Absorbs(crc, b);
    Serial32Add(Xor32(crc, b as bv32), i as bv32, high, 0);
    Serial32OfHigh(high);
    Cr3TabIsSerial(i);
    SumIsXor(Serial32(crc, b), Cr3Tab(i), Shr8(crc));
  }

  lemma SumIsXor(r: bv32, a: bv32, b: bv32)
    ensures Sum(r, a, b) <==> r == Xor32(a, b)
  {
  }

  lemma {:induction false} Crc32Cons(msg: seq<byte>, crc: bv32)
    requires msg != []
    ensures Crc32Over(msg, crc) == Crc32Over(msg[1..], UpdCrc32(msg[0], crc))
  {
    hide UpdCrc32;
    var last := |msg| - 1;
    if last > 0 {
      Crc32Cons(msg[..last], crc);
      assert msg[..last][1..] == msg[1..][..last - 1];
    } else {
      assert msg[..last] == [];
    }
  }

  /** For every message, folding the table macro equals dividing bit by bit. */
  lemma {:induction false} Crc32IsDivision(msg: seq<byte>, crc: bv32)
    ensures Crc32Over(msg, crc) == Division32(msg, crc)
  {
    hide UpdCrc32, Serial32;
    if msg != [] {
      UpdCrc32IsSerial(msg[0], crc);
      Crc32IsDivision(msg[1..], UpdCrc32(msg[0], crc));
      Crc32Cons(msg, crc);
    }
  }

  /** The four bytes, low byte first, `zsbh32` and `zsda32` send after a message. */
  function Fcs32(msg: seq<byte>): seq<byte> {
    LowFirst(Inverted(Crc32Over(msg, 0xffffffff)))
  }

  function Inverted(c: bv32): bv32 { !c }

  function LowFirst(c: bv32): seq<byte> {
    [Low8(c), Low8(Shr8(c)), Low8(Shr8(Shr8(c))), Low8(Shr8(Shr8(Shr8(c))))]
  }

  function Low8(c: bv32): byte { (c & 0xff) as bv8 }

  function HighFirst(c: bv16): seq<byte> {
    [(c >> 8) as bv8, (c & 0xff) as bv8]
  }

  const RESIDUE32: bv32 := 0xdebb20e3

  lemma SumLowByte(r: bv32, k: bv32, h: bv32, b: byte, i: byte)
    requires Sum(r, k, h)
    requires b == !Low8(h) && i == !Low8(k)
    ensures Index32(b, r) == i
    ensures Sum(Shr8(r), Shr8(k), Shr8(h))
  {
  }

  lemma SumPlus(t: bv32, r: bv32, k: bv32, h: bv32)
    requires Sum(r, k, h)
    ensures Sum(Xor32(t, r), Xor32(t, k), h)
  {
    hide Xor32;
    XorAssoc(t, k, h);
  }

  lemma XorAssoc(t: bv32, k: bv32, h: bv32)
    ensures Xor32(t, Xor32(k, h)) == Xor32(Xor32(t, k), h)
  {
  }

  lemma ResidueStep32(r: bv32, k: bv32, h: bv32, b: byte, i: byte)
    requires Sum(r, k, h)
    requires b == !Low8(h) && i == !Low8(k)
    ensures Sum(UpdCrc32(b, r), Xor32(Cr3Tab(i), Shr8(k)), Shr8(h))
  {
    hide Cr3Tab, Sum, Shr8, Xor32, Index32;
    SumLowByte(r, k, h, b, i);
    SumPlus(Cr3Tab(i), Shr8(r), Shr8(k), Shr8(h));
  }

  lemma SumZero(x: bv32)
    ensures Sum(x, 0, x)
    ensures forall k :: Sum(x, k, 0) ==> x == k
  {
  }

  lemma InvertedBytes(crc: bv32)
    ensures LowFirst(Inverted(crc)) == [!Low8(crc), !Low8(Shr8(crc)), !Low8(Shr8(Shr8(crc))), !Low8(Shr8(Shr8(Shr8(crc))))]
    ensures Shr8(Shr8(Shr8(Shr8(crc)))) == 0
  {
  }

  lemma Cr3TabEntries()
    ensures Xor32(Cr3Tab(0xff), Shr8(0)) == 0x2d02ef8d
    ensures Xor32(Cr3Tab(0x72), Shr8(0x2d02ef8d)) == 0xbe2612ff
    ensures Xor32(Cr3Tab(0x00), Shr8(0xbe2612ff)) == 0x00be2612
    ensures Xor32(Cr3Tab(0xed), Shr8(0x00be2612)) == RESIDUE32
  {
  }

  /** The register after the four inverted bytes no longer depends on what it held. */
  lemma ResidueSteps32(crc: bv32, b0: byte, b1: byte, b2: byte, b3: byte)
    requires [b0, b1, b2, b3] == LowFirst(Inverted(crc))
    ensures UpdCrc32(b3, UpdCrc32(b2, UpdCrc32(b1, UpdCrc32(b0, crc)))) == RESIDUE32
  {
    hide UpdCrc32, Cr3Tab, Sum, Shr8, Xor32, LowFirst, Inverted;
    Cr3TabEntries();
    InvertedBytes(crc);
    var inv := LowFirst(Inverted(crc));
    assert b0 == inv[0] && b1 == inv[1] && b2 == inv[2] && b3 == inv[3];
    SumZero(crc);
    var r1 := UpdCrc32(b0, crc);
    ResidueStep32(crc, 0, crc, b0, 0xff);
    var r2 := UpdCrc32(b1, r1);
    ResidueStep32(r1, 0x2d02ef8d, Shr8(crc), b1, 0x72);
    var r3 := UpdCrc32(b2, r2);
    ResidueStep32(r2, 0xbe2612ff, Shr8(Shr8(crc)), b2, 0x00);
    ResidueStep32(r3, 0x00be2612, Shr8(Shr8(Shr8(crc))), b3, 0xed);
    SumZero(UpdCrc32(b3, r3));
  }

  lemma Crc32Snoc(msg: seq<byte>, b: byte, crc: bv32)
    ensures Crc32Over(msg + [b], crc) == UpdCrc32(b, Crc32Over(msg, crc))
  {
    hide UpdCrc32;
    assert (msg + [b])[..|msg|] == msg;
  }

  lemma Crc32Four(msg: seq<byte>, a: byte, b: byte, c: byte, d: byte, crc: bv32)
    ensures Crc32Over(msg + [a, b, c, d], crc) == UpdCrc32(d, UpdCrc32(c, UpdCrc32(b, UpdCrc32(a, Crc32Over(msg, crc)))))
  {
    hide UpdCrc32, Crc32Over;
    Crc32Snoc(msg, a, crc);
    Crc32Snoc(msg + [a], b, crc);
    Crc32Snoc(msg + [a] + [b], c, crc);
    Crc32Snoc(msg + [a] + [b] + [c], d, crc);
    assert msg + [a] + [b] + [c] + [d] == msg + [a, b, c, d];
  }

  lemma FourBytes(c: bv32)
    ensures var f := LowFirst(c); |f| == 4 && f == [f[0], f[1], f[2], f[3]]
  {
  }

  /** A message followed by its emitted 32-bit CRC always leaves 0xDEBB20E3. */
  lemma Residue32(msg: seq<byte>)
    ensures Crc32Over(msg + Fcs32(msg), 0xffffffff) == RESIDUE32
  {
    hide UpdCrc32, Crc32Over, LowFirst, Inverted;
    var crc := Crc32Over(msg, 0xffffffff);
    var f := Fcs32(msg);
    FourBytes(Inverted(crc));
    Crc32Four(msg, f[0], f[1], f[2], f[3], 0xffffffff);
    ResidueSteps32(crc, f[0], f[1], f[2], f[3]);
  }

  // ----- What the 32-bit CRC detects -----

  lemma Clock32Kernel(x: bv32)
    requires Clock32(x, false) == 0
    ensures x == 0
  {
  }

  lemma Serial32Kernel(x: bv32)
    requires Serial32(x, 0) == 0
    ensures x == 0
  {
    hide Clock32;
    var x2 := Clocks2(x, false, false);
    var x4 := Clocks2(x2, false, false);
    var x6 := Clocks2(x4, false, false);
    Clock32Kernel(Clock32(x6, false));
    Clock32Kernel(x6);
    Clock32Kernel(Clock32(x4, false));
    Clock32Kernel(x4);
    Clock32Kernel(Clock32(x2, false));
    Clock32Kernel(x2);
    Clock32Kernel(Clock32(x, false));
    Clock32Kernel(x);
  }

  lemma SumOfXor(a: bv32, b: bv32)
    ensures Sum(a, b, Xor32(a, b))
  {
  }

  lemma XorBack(a: bv32, b: bv32)
    ensures Xor32(a, Xor32(a, b)) == b && Xor32(a, 0) == a && Xor32(a, a) == 0
  {
  }

  lemma XorZero(a: bv32, b: bv32)
    ensures Xor32(a, b) == 0 <==> a == b
  {
    hide Xor32;
    XorBack(a, b);
  }

  lemma SumSame(a: bv32, b: bv32)
    requires Sum(a, a, b)
    ensures b == 0
  {
  }

  lemma SumCancels(a: bv32, b: bv32, d: bv32)
    requires Sum(a, b, d)
    ensures Xor32(a, b) == d
  {
    assert a ^ b == d;
  }

  lemma Shl8Basics(d: bv32)
    requires d <= 0x00ffffff
    ensures (d << 8) & 0xff == 0 && Shr8(d << 8) == d
  {
  }

  /** A register whose top byte is clear was, one byte earlier, its own left shift. */
  lemma Serial32Undo(u: bv32, d: bv32)
    requires Serial32(u, 0) == d && d <= 0x00ffffff
    ensures u == d << 8
  {
    hide Serial32, Sum, Xor32, Shr8;
    var v := d << 8;
    Shl8Basics(d);
    Serial32OfHigh(v);
    SumOfXor(u, v);
    Serial32Add(u, v, Xor32(u, v), 0);
    SumSame(d, Serial32(Xor32(u, v), 0));
    Serial32Kernel(Xor32(u, v));
    XorZero(u, v);
  }

  function Difference(s: bv32, t: bv32, x: byte, y: byte): bv32 {
    Xor32(Xor32(s, t), Xor32(x as bv32, y as bv32))
  }

  lemma SumRegroups(s: bv32, t: bv32, x: bv32, y: bv32, sx: bv32, ty: bv32, st: bv32, xy: bv32, d: bv32)
    requires sx == s ^ x && ty == t ^ y && st == s ^ t && xy == x ^ y && d == st ^ xy
    ensures Sum(sx, ty, d)
  {
  }

  lemma XorIs(a: bv32, b: bv32)
    ensures Xor32(a, b) == a ^ b
  {
  }

  lemma DifferenceRegroups(s: bv32, t: bv32, x: byte, y: byte)
    ensures Sum(Xor32(s, x as bv32), Xor32(t, y as bv32), Difference(s, t, x, y))
  {
    hide Xor32, Sum;
    var a, b := x as bv32, y as bv32;
    XorIs(s, a);
    XorIs(t, b);
    XorIs(s, t);
    XorIs(a, b);
    XorIs(Xor32(s, t), Xor32(a, b));
    SumRegroups(s, t, a, b, Xor32(s, a), Xor32(t, b), Xor32(s, t), Xor32(a, b), Difference(s, t, x, y));
  }

  /** How the difference of two registers moves when each takes in a byte. */
  lemma Upd32Difference(s: bv32, t: bv32, x: byte, y: byte)
    ensures Xor32(UpdCrc32(x, s), UpdCrc32(y, t)) == Serial32(Difference(s, t, x, y), 0)
  {
    hide UpdCrc32, Serial32, Sum, Xor32, Difference;
    UpdCrc32IsSerial(x, s);
    UpdCrc32IsSerial(y, t);
    Serial32Absorbs(s, x);
    Serial32Absorbs(t, y);
    DifferenceRegroups(s, t, x, y);
    Serial32Add(Xor32(s, x as bv32), Xor32(t, y as bv32), Difference(s, t, x, y), 0);
    SumCancels(UpdCrc32(x, s), UpdCrc32(y, t), Serial32(Difference(s, t, x, y), 0));
  }

  /** The register differences that `n` bytes of damage cannot have caused unless they are equal. */
  ghost predicate Within(d: bv32, n: nat) {
    d <= (if n == 0 then 0xffffffff else if n == 1 then 0x00ffffff
          else if n == 2 then 0xffff else if n == 3 then 0xff else 0)
  }

  lemma WithinBack(n: nat, s: bv32, t: bv32, x: byte, y: byte, d: bv32)
    requires 1 <= n <= 4 && Within(d, n)
    requires Difference(s, t, x, y) == d << 8
    ensures Within(Xor32(s, t), n - 1)
    ensures s == t ==> x == y
  {
  }

  lemma WithinSmall(n: nat, d: bv32)
    requires 1 <= n && Within(d, n)
    ensures d <= 0x00ffffff
  {
  }

  lemma BurstStep(n: nat, s: bv32, t: bv32, x: byte, y: byte)
    requires 1 <= n <= 4 && Within(Xor32(UpdCrc32(x, s), UpdCrc32(y, t)), n)
    ensures Within(Xor32(s, t), n - 1)
    ensures s == t ==> x == y
  {
    hide UpdCrc32, Serial32, Within, Xor32, Difference;
    var d := Xor32(UpdCrc32(x, s), UpdCrc32(y, t));
    Upd32Difference(s, t, x, y);
    WithinSmall(n, d);
    Serial32Undo(Difference(s, t, x, y), d);
    WithinBack(n, s, t, x, y, d);
  }

  lemma {:induction false} BurstOf32(x: seq<byte>, y: seq<byte>, c: bv32)
    requires |x| == |y| <= 4
    requires Within(Xor32(Crc32Over(x, c), Crc32Over(y, c)), |x|)
    ensures x == y
  {
    hide UpdCrc32, Within, Xor32;
    var n := |x|;
    if n > 0 {
      BurstStep(n, Crc32Over(x[..n - 1], c), Crc32Over(y[..n - 1], c), x[n - 1], y[n - 1]);
      BurstOf32(x[..n - 1], y[..n - 1], c);
      assert x == x[..n - 1] + [x[n - 1]] && y == y[..n - 1] + [y[n - 1]];
    }
  }

  lemma {:induction false} Crc32Concat(p: seq<byte>, s: seq<byte>, c: bv32)
    ensures Crc32Over(p + s, c) == Crc32Over(s, Crc32Over(p, c))
  {
    hide UpdCrc32;
    if s == [] {
      assert p + s == p;
    } else {
      var last := |s| - 1;
      Crc32Concat(p, s[..last], c);
      assert (p + s)[..|p + s| - 1] == p + s[..last];
    }
  }

  lemma {:induction false} Crc32Injective(s: seq<byte>, c: bv32, d: bv32)
    requires Crc32Over(s, c) == Crc32Over(s, d)
    ensures c == d
  {
    hide UpdCrc32, Serial32, Xor32;
    if s != [] {
      var last := |s| - 1;
      var u, v, b := Crc32Over(s[..last], c), Crc32Over(s[..last], d), s[last];
      Upd32Difference(u, v, b, b);
      XorZero(UpdCrc32(b, u), UpdCrc32(b, v));
      Serial32Kernel(Difference(u, v, b, b));
      XorZero(b as bv32, b as bv32);
      XorZero(Xor32(u, v), 0);
      XorZero(u, v);
      Crc32Injective(s[..last], c, d);
    }
  }

  /** Damage confined to four consecutive bytes always changes the 32-bit CRC. */
  lemma BurstDetected32(p: seq<byte>, x: seq<byte>, y: seq<byte>, s: seq<byte>, c: bv32)
    requires |x| == |y| <= 4 && x != y
    ensures Crc32Over(p + x + s, c) != Crc32Over(p + y + s, c)
  {
    hide Crc32Over;
    var mid := Crc32Over(p, c);
    Crc32Concat(p + x, s, c);
    Crc32Concat(p + y, s, c);
    Crc32Concat(p, x, c);
    Crc32Concat(p, y, c);
    if Crc32Over(p + x + s, c) == Crc32Over(p + y + s, c) {
      Crc32Injective(s, Crc32Over(x, mid), Crc32Over(y, mid));
      XorZero(Crc32Over(x, mid), Crc32Over(y, mid));
      BurstOf32(x, y, mid);
    }
  }

  // ----- Only the emitted bytes pass -----

  lemma WordIs(c: bv16, hi: byte, lo: byte)
    requires PlusWord(0, c, hi, lo)
    ensures HighFirst(c) == [hi, lo]
  {
  }

  lemma Crc16Snoc(msg: seq<byte>, b: byte, crc: bv16)
    ensures Crc16Over(msg + [b], crc) == UpdCrc(b, Crc16Over(msg, crc))
  {
    hide UpdCrc;
    assert (msg + [b])[..|msg|] == msg;
  }

  lemma TwoBytesLeft(crc: bv16, hi: byte, lo: byte)
    requires UpdCrc(lo, UpdCrc(hi, crc)) == 0
    ensures HighFirst(UpdCrc(0, UpdCrc(0, crc))) == [hi, lo]
  {
    hide UpdCrc, PlusByte, PlusWord, HighFirst;
    UpdCrcByte(hi, crc);
    UpdCrcShifted(lo, hi, UpdCrc(0, crc), UpdCrc(hi, crc));
    WordIs(UpdCrc(0, UpdCrc(0, crc)), hi, lo);
  }

  lemma Fcs16Is(msg: seq<byte>)
    ensures Fcs16(msg) == HighFirst(UpdCrc(0, UpdCrc(0, Crc16Over(msg, 0))))
  {
    hide UpdCrc, HighFirst, Crc16Over;
  }

  /** Of all two-byte checks only the one that is emitted leaves residue 0. */
  lemma Residue16Only(msg: seq<byte>, chk: seq<byte>)
    requires |chk| == 2
    ensures Crc16Over(msg + chk, 0) == 0 <==> chk == Fcs16(msg)
  {
    hide UpdCrc, HighFirst, Crc16Over, Fcs16;
    Residue16(msg);
    assert msg + chk == msg + [chk[0]] + [chk[1]] && chk == [chk[0], chk[1]];
    Crc16Snoc(msg, chk[0], 0);
    Crc16Snoc(msg + [chk[0]], chk[1], 0);
    if Crc16Over(msg + chk, 0) == 0 {
      TwoBytesLeft(Crc16Over(msg, 0), chk[0], chk[1]);
      Fcs16Is(msg);
    }
  }

  /** And of all four-byte checks only the one that is emitted leaves the other residue. */
  lemma Residue32Only(msg: seq<byte>, chk: seq<byte>)
    requires |chk| == 4
    ensures Crc32Over(msg + chk, 0xffffffff) == RESIDUE32 <==> chk == Fcs32(msg)
  {
    hide Crc32Over;
    Residue32(msg);
    if chk != Fcs32(msg) {
      BurstDetected32(msg, chk, Fcs32(msg), [], 0xffffffff);
      assert msg + chk + [] == msg + chk && msg + Fcs32(msg) + [] == msg + Fcs32(msg);
    }
  }
}
