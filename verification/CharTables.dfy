/** The character tables used by file transfer: the emulator's own (Common/tables.c:41-106) and the ones that
    IND$FILE is found to apply (Common/ft.c:101-136). */
module CharTables {
  import opened Bytes

  // ebc2asc0
  function Ebc2Asc0(c: byte): byte {
    match c / 16
    case 1 => Ebc2Asc0Row1(c % 16)
    case 4 => Ebc2Asc0Row4(c % 16)
    case 5 => Ebc2Asc0Row5(c % 16)
    case 6 => Ebc2Asc0Row6(c % 16)
    case 7 => Ebc2Asc0Row7(c % 16)
    case 8 => Ebc2Asc0Row8(c % 16)
    case 9 => Ebc2Asc0Row9(c % 16)
    case 10 => Ebc2Asc0RowA(c % 16)
    case 11 => Ebc2Asc0RowB(c % 16)
    case 12 => Ebc2Asc0RowC(c % 16)
    case 13 => Ebc2Asc0RowD(c % 16)
    case 14 => Ebc2Asc0RowE(c % 16)
    case 15 => Ebc2Asc0RowF(c % 16)
    case _ => 0x20
  }

  function Ebc2Asc0Row1(k: nat): byte {
    match k
    case 0 => 0x20 case 1 => 0x20 case 2 => 0x20 case 3 => 0x20
    case 4 => 0x20 case 5 => 0x20 case 6 => 0x20 case 7 => 0x20
    case 8 => 0x20 case 9 => 0x20 case 10 => 0x20 case 11 => 0x20
    case 12 => 0x2A case 13 => 0x20 case 14 => 0x3B case _ => 0x20
  }

  function Ebc2Asc0Row4(k: nat): byte {
    match k
    case 0 => 0x20 case 1 => 0x20 case 2 => 0xE2 case 3 => 0xE4
    case 4 => 0xE0 case 5 => 0xE1 case 6 => 0xE3 case 7 => 0xE5
    case 8 => 0xE7 case 9 => 0xF1 case 10 => 0xA2 case 11 => 0x2E
    case 12 => 0x3C case 13 => 0x28 case 14 => 0x2B case _ => 0x7C
  }

  function Ebc2Asc0Row5(k: nat): byte {
    match k
    case 0 => 0x26 case 1 => 0xE9 case 2 => 0xEA case 3 => 0xEB
    case 4 => 0xE8 case 5 => 0xED case 6 => 0xEE case 7 => 0xEF
    case 8 => 0xEC case 9 => 0xDF case 10 => 0x21 case 11 => 0x24
    case 12 => 0x2A case 13 => 0x29 case 14 => 0x3B case _ => 0xAC
  }

  function Ebc2Asc0Row6(k: nat): byte {
    match k
    case 0 => 0x2D case 1 => 0x2F case 2 => 0xC2 case 3 => 0xC4
    case 4 => 0xC0 case 5 => 0xC1 case 6 => 0xC3 case 7 => 0xC5
    case 8 => 0xC7 case 9 => 0xD1 case 10 => 0xA6 case 11 => 0x2C
    case 12 => 0x25 case 13 => 0x5F case 14 => 0x3E case _ => 0x3F
  }

  function Ebc2Asc0Row7(k: nat): byte {
    match k
    case 0 => 0xF8 case 1 => 0xC9 case 2 => 0xCA case 3 => 0xCB
    case 4 => 0xC8 case 5 => 0xCD case 6 => 0xCE case 7 => 0xCF
    case 8 => 0xCC case 9 => 0x60 case 10 => 0x3A case 11 => 0x23
    case 12 => 0x40 case 13 => 0x27 case 14 => 0x3D case _ => 0x22
  }

  function Ebc2Asc0Row8(k: nat): byte {
    match k
    case 0 => 0xD8 case 1 => 0x61 case 2 => 0x62 case 3 => 0x63
    case 4 => 0x64 case 5 => 0x65 case 6 => 0x66 case 7 => 0x67
    case 8 => 0x68 case 9 => 0x69 case 10 => 0xAB case 11 => 0xBB
    case 12 => 0xF0 case 13 => 0xFD case 14 => 0xFE case _ => 0xB1
  }

  function Ebc2Asc0Row9(k: nat): byte {
    match k
    case 0 => 0xB0 case 1 => 0x6A case 2 => 0x6B case 3 => 0x6C
    case 4 => 0x6D case 5 => 0x6E case 6 => 0x6F case 7 => 0x70
    case 8 => 0x71 case 9 => 0x72 case 10 => 0xAA case 11 => 0xBA
    case 12 => 0xE6 case 13 => 0xB8 case 14 => 0xC6 case _ => 0xA4
  }

  function Ebc2Asc0RowA(k: nat): byte {
    match k
    case 0 => 0xB5 case 1 => 0x7E case 2 => 0x73 case 3 => 0x74
    case 4 => 0x75 case 5 => 0x76 case 6 => 0x77 case 7 => 0x78
    case 8 => 0x79 case 9 => 0x7A case 10 => 0xA1 case 11 => 0xBF
    case 12 => 0xD0 case 13 => 0xDD case 14 => 0xDE case _ => 0xAE
  }

  function Ebc2Asc0RowB(k: nat): byte {
    match k
    case 0 => 0x5E case 1 => 0xA3 case 2 => 0xA5 case 3 => 0xB7
    case 4 => 0xA9 case 5 => 0xA7 case 6 => 0xB6 case 7 => 0xBC
    case 8 => 0xBD case 9 => 0xBE case 10 => 0x5B case 11 => 0x5D
    case 12 => 0xAF case 13 => 0xA8 case 14 => 0xB4 case _ => 0xD7
  }

  function Ebc2Asc0RowC(k: nat): byte {
    match k
    case 0 => 0x7B case 1 => 0x41 case 2 => 0x42 case 3 => 0x43
    case 4 => 0x44 case 5 => 0x45 case 6 => 0x46 case 7 => 0x47
    case 8 => 0x48 case 9 => 0x49 case 10 => 0xAD case 11 => 0xF4
    case 12 => 0xF6 case 13 => 0xF2 case 14 => 0xF3 case _ => 0xF5
  }

  function Ebc2Asc0RowD(k: nat): byte {
    match k
    case 0 => 0x7D case 1 => 0x4A case 2 => 0x4B case 3 => 0x4C
    case 4 => 0x4D case 5 => 0x4E case 6 => 0x4F case 7 => 0x50
    case 8 => 0x51 case 9 => 0x52 case 10 => 0xB9 case 11 => 0xFB
    case 12 => 0xFC case 13 => 0xF9 case 14 => 0xFA case _ => 0xFF
  }

  function Ebc2Asc0RowE(k: nat): byte {
    match k
    case 0 => 0x5C case 1 => 0xF7 case 2 => 0x53 case 3 => 0x54
    case 4 => 0x55 case 5 => 0x56 case 6 => 0x57 case 7 => 0x58
    case 8 => 0x59 case 9 => 0x5A case 10 => 0xB2 case 11 => 0xD4
    case 12 => 0xD6 case 13 => 0xD2 case 14 => 0xD3 case _ => 0xD5
  }

  function Ebc2Asc0RowF(k: nat): byte {
    match k
    case 0 => 0x30 case 1 => 0x31 case 2 => 0x32 case 3 => 0x33
    case 4 => 0x34 case 5 => 0x35 case 6 => 0x36 case 7 => 0x37
    case 8 => 0x38 case 9 => 0x39 case 10 => 0xB3 case 11 => 0xDB
    case 12 => 0xDC case 13 => 0xD9 case 14 => 0xDA case _ => 0x20
  }

  // asc2ebc0
  function Asc2Ebc0(c: byte): byte {
    match c / 16
    case 2 => Asc2Ebc0Row2(c % 16)
    case 3 => Asc2Ebc0Row3(c % 16)
    case 4 => Asc2Ebc0Row4(c % 16)
    case 5 => Asc2Ebc0Row5(c % 16)
    case 6 => Asc2Ebc0Row6(c % 16)
    case 7 => Asc2Ebc0Row7(c % 16)
    case 10 => Asc2Ebc0RowA(c % 16)
    case 11 => Asc2Ebc0RowB(c % 16)
    case 12 => Asc2Ebc0RowC(c % 16)
    case 13 => Asc2Ebc0RowD(c % 16)
    case 14 => Asc2Ebc0RowE(c % 16)
    case 15 => Asc2Ebc0RowF(c % 16)
    case _ => 0x00
  }

  function Asc2Ebc0Row2(k: nat): byte {
    match k
    case 0 => 0x40 case 1 => 0x5A case 2 => 0x7F case 3 => 0x7B
    case 4 => 0x5B case 5 => 0x6C case 6 => 0x50 case 7 => 0x7D
    case 8 => 0x4D case 9 => 0x5D case 10 => 0x5C case 11 => 0x4E
    case 12 => 0x6B case 13 => 0x60 case 14 => 0x4B case _ => 0x61
  }

  function Asc2Ebc0Row3(k: nat): byte {
    match k
    case 0 => 0xF0 case 1 => 0xF1 case 2 => 0xF2 case 3 => 0xF3
    case 4 => 0xF4 case 5 => 0xF5 case 6 => 0xF6 case 7 => 0xF7
    case 8 => 0xF8 case 9 => 0xF9 case 10 => 0x7A case 11 => 0x5E
    case 12 => 0x4C case 13 => 0x7E case 14 => 0x6E case _ => 0x6F
  }

  function Asc2Ebc0Row4(k: nat): byte {
    match k
    case 0 => 0x7C case 1 => 0xC1 case 2 => 0xC2 case 3 => 0xC3
    case 4 => 0xC4 case 5 => 0xC5 case 6 => 0xC6 case 7 => 0xC7
    case 8 => 0xC8 case 9 => 0xC9 case 10 => 0xD1 case 11 => 0xD2
    case 12 => 0xD3 case 13 => 0xD4 case 14 => 0xD5 case _ => 0xD6
  }

  function Asc2Ebc0Row5(k: nat): byte {
    match k
    case 0 => 0xD7 case 1 => 0xD8 case 2 => 0xD9 case 3 => 0xE2
    case 4 => 0xE3 case 5 => 0xE4 case 6 => 0xE5 case 7 => 0xE6
    case 8 => 0xE7 case 9 => 0xE8 case 10 => 0xE9 case 11 => 0xBA
    case 12 => 0xE0 case 13 => 0xBB case 14 => 0xB0 case _ => 0x6D
  }

  function Asc2Ebc0Row6(k: nat): byte {
    match k
    case 0 => 0x79 case 1 => 0x81 case 2 => 0x82 case 3 => 0x83
    case 4 => 0x84 case 5 => 0x85 case 6 => 0x86 case 7 => 0x87
    case 8 => 0x88 case 9 => 0x89 case 10 => 0x91 case 11 => 0x92
    case 12 => 0x93 case 13 => 0x94 case 14 => 0x95 case _ => 0x96
  }

  function Asc2Ebc0Row7(k: nat): byte {
    match k
    case 0 => 0x97 case 1 => 0x98 case 2 => 0x99 case 3 => 0xA2
    case 4 => 0xA3 case 5 => 0xA4 case 6 => 0xA5 case 7 => 0xA6
    case 8 => 0xA7 case 9 => 0xA8 case 10 => 0xA9 case 11 => 0xC0
    case 12 => 0x4F case 13 => 0xD0 case 14 => 0xA1 case _ => 0x00
  }

  function Asc2Ebc0RowA(k: nat): byte {
    match k
    case 0 => 0x41 case 1 => 0xAA case 2 => 0x4A case 3 => 0xB1
    case 4 => 0x9F case 5 => 0xB2 case 6 => 0x6A case 7 => 0xB5
    case 8 => 0xBD case 9 => 0xB4 case 10 => 0x9A case 11 => 0x8A
    case 12 => 0x5F case 13 => 0xCA case 14 => 0xAF case _ => 0xBC
  }

  function Asc2Ebc0RowB(k: nat): byte {
    match k
    case 0 => 0x90 case 1 => 0x8F case 2 => 0xEA case 3 => 0xFA
    case 4 => 0xBE case 5 => 0xA0 case 6 => 0xB6 case 7 => 0xB3
    case 8 => 0x9D case 9 => 0xDA case 10 => 0x9B case 11 => 0x8B
    case 12 => 0xB7 case 13 => 0xB8 case 14 => 0xB9 case _ => 0xAB
  }

  function Asc2Ebc0RowC(k: nat): byte {
    match k
    case 0 => 0x64 case 1 => 0x65 case 2 => 0x62 case 3 => 0x66
    case 4 => 0x63 case 5 => 0x67 case 6 => 0x9E case 7 => 0x68
    case 8 => 0x74 case 9 => 0x71 case 10 => 0x72 case 11 => 0x73
    case 12 => 0x78 case 13 => 0x75 case 14 => 0x76 case _ => 0x77
  }

  function Asc2Ebc0RowD(k: nat): byte {
    match k
    case 0 => 0xAC case 1 => 0x69 case 2 => 0xED case 3 => 0xEE
    case 4 => 0xEB case 5 => 0xEF case 6 => 0xEC case 7 => 0xBF
    case 8 => 0x80 case 9 => 0xFD case 10 => 0xFE case 11 => 0xFB
    case 12 => 0xFC case 13 => 0xAD case 14 => 0xAE case _ => 0x59
  }

  function Asc2Ebc0RowE(k: nat): byte {
    match k
    case 0 => 0x44 case 1 => 0x45 case 2 => 0x42 case 3 => 0x46
    case 4 => 0x43 case 5 => 0x47 case 6 => 0x9C case 7 => 0x48
    case 8 => 0x54 case 9 => 0x51 case 10 => 0x52 case 11 => 0x53
    case 12 => 0x58 case 13 => 0x55 case 14 => 0x56 case _ => 0x57
  }

  function Asc2Ebc0RowF(k: nat): byte {
    match k
    case 0 => 0x8C case 1 => 0x49 case 2 => 0xCD case 3 => 0xCE
    case 4 => 0xCB case 5 => 0xCF case 6 => 0xCC case 7 => 0xE1
    case 8 => 0x70 case 9 => 0xDD case 10 => 0xDE case 11 => 0xDB
    case 12 => 0xDC case 13 => 0x8D case 14 => 0x8E case _ => 0xDF
  }

  // i_asc2ft
  function Asc2Ft(c: byte): byte {
    match c / 16
    case 0 => Asc2FtRow0(c % 16)
    case 1 => Asc2FtRow1(c % 16)
    case 2 => Asc2FtRow2(c % 16)
    case 3 => Asc2FtRow3(c % 16)
    case 4 => Asc2FtRow4(c % 16)
    case 5 => Asc2FtRow5(c % 16)
    case 6 => Asc2FtRow6(c % 16)
    case 7 => Asc2FtRow7(c % 16)
    case 8 => Asc2FtRow8(c % 16)
    case 9 => Asc2FtRow9(c % 16)
    case 10 => Asc2FtRowA(c % 16)
    case 11 => Asc2FtRowB(c % 16)
    case 12 => Asc2FtRowC(c % 16)
    case 13 => Asc2FtRowD(c % 16)
    case 14 => Asc2FtRowE(c % 16)
    case _ => Asc2FtRowF(c % 16)
  }

  function Asc2FtRow0(k: nat): byte {
    match k
    case 0 => 0x00 case 1 => 0x01 case 2 => 0x02 case 3 => 0x03
    case 4 => 0x37 case 5 => 0x2D case 6 => 0x2E case 7 => 0x2F
    case 8 => 0x16 case 9 => 0x05 case 10 => 0x0A case 11 => 0x0B
    case 12 => 0x0C case 13 => 0x0D case 14 => 0x0E case _ => 0x0F
  }

  function Asc2FtRow1(k: nat): byte {
    match k
    case 0 => 0x10 case 1 => 0x11 case 2 => 0x12 case 3 => 0x13
    case 4 => 0x3C case 5 => 0x3D case 6 => 0x32 case 7 => 0x26
    case 8 => 0x18 case 9 => 0x19 case 10 => 0x3F case 11 => 0x27
    case 12 => 0x1C case 13 => 0x1D case 14 => 0x1E case _ => 0x1F
  }

  function Asc2FtRow2(k: nat): byte {
    match k
    case 0 => 0x40 case 1 => 0x5A case 2 => 0x7F case 3 => 0x7B
    case 4 => 0x5B case 5 => 0x6C case 6 => 0x50 case 7 => 0x7D
    case 8 => 0x4D case 9 => 0x5D case 10 => 0x5C case 11 => 0x4E
    case 12 => 0x6B case 13 => 0x60 case 14 => 0x4B case _ => 0x61
  }

  function Asc2FtRow3(k: nat): byte {
    match k
    case 0 => 0xF0 case 1 => 0xF1 case 2 => 0xF2 case 3 => 0xF3
    case 4 => 0xF4 case 5 => 0xF5 case 6 => 0xF6 case 7 => 0xF7
    case 8 => 0xF8 case 9 => 0xF9 case 10 => 0x7A case 11 => 0x5E
    case 12 => 0x4C case 13 => 0x7E case 14 => 0x6E case _ => 0x6F
  }

  function Asc2FtRow4(k: nat): byte {
    match k
    case 0 => 0x7C case 1 => 0xC1 case 2 => 0xC2 case 3 => 0xC3
    case 4 => 0xC4 case 5 => 0xC5 case 6 => 0xC6 case 7 => 0xC7
    case 8 => 0xC8 case 9 => 0xC9 case 10 => 0xD1 case 11 => 0xD2
    case 12 => 0xD3 case 13 => 0xD4 case 14 => 0xD5 case _ => 0xD6
  }

  function Asc2FtRow5(k: nat): byte {
    match k
    case 0 => 0xD7 case 1 => 0xD8 case 2 => 0xD9 case 3 => 0xE2
    case 4 => 0xE3 case 5 => 0xE4 case 6 => 0xE5 case 7 => 0xE6
    case 8 => 0xE7 case 9 => 0xE8 case 10 => 0xE9 case 11 => 0x4A
    case 12 => 0xE0 case 13 => 0x4F case 14 => 0x5F case _ => 0x6D
  }

  function Asc2FtRow6(k: nat): byte {
    match k
    case 0 => 0x79 case 1 => 0x81 case 2 => 0x82 case 3 => 0x83
    case 4 => 0x84 case 5 => 0x85 case 6 => 0x86 case 7 => 0x87
    case 8 => 0x88 case 9 => 0x89 case 10 => 0x91 case 11 => 0x92
    case 12 => 0x93 case 13 => 0x94 case 14 => 0x95 case _ => 0x96
  }

  function Asc2FtRow7(k: nat): byte {
    match k
    case 0 => 0x97 case 1 => 0x98 case 2 => 0x99 case 3 => 0xA2
    case 4 => 0xA3 case 5 => 0xA4 case 6 => 0xA5 case 7 => 0xA6
    case 8 => 0xA7 case 9 => 0xA8 case 10 => 0xA9 case 11 => 0xC0
    case 12 => 0x6A case 13 => 0xD0 case 14 => 0xA1 case _ => 0x07
  }

  function Asc2FtRow8(k: nat): byte {
    match k
    case 0 => 0x20 case 1 => 0x21 case 2 => 0x22 case 3 => 0x23
    case 4 => 0x24 case 5 => 0x15 case 6 => 0x06 case 7 => 0x17
    case 8 => 0x28 case 9 => 0x29 case 10 => 0x2A case 11 => 0x2B
    case 12 => 0x2C case 13 => 0x09 case 14 => 0x0A case _ => 0x1B
  }

  function Asc2FtRow9(k: nat): byte {
    match k
    case 0 => 0x30 case 1 => 0x31 case 2 => 0x1A case 3 => 0x33
    case 4 => 0x34 case 5 => 0x35 case 6 => 0x36 case 7 => 0x08
    case 8 => 0x38 case 9 => 0x39 case 10 => 0x3A case 11 => 0x3B
    case 12 => 0x04 case 13 => 0x14 case 14 => 0x3E case _ => 0xE1
  }

  function Asc2FtRowA(k: nat): byte {
    match k
    case 0 => 0x41 case 1 => 0x42 case 2 => 0x43 case 3 => 0x44
    case 4 => 0x45 case 5 => 0x46 case 6 => 0x47 case 7 => 0x48
    case 8 => 0x49 case 9 => 0x51 case 10 => 0x52 case 11 => 0x53
    case 12 => 0x54 case 13 => 0x55 case 14 => 0x56 case _ => 0x57
  }

  function Asc2FtRowB(k: nat): byte {
    match k
    case 0 => 0x58 case 1 => 0x59 case 2 => 0x62 case 3 => 0x63
    case 4 => 0x64 case 5 => 0x65 case 6 => 0x66 case 7 => 0x67
    case 8 => 0x68 case 9 => 0x69 case 10 => 0x70 case 11 => 0x71
    case 12 => 0x72 case 13 => 0x73 case 14 => 0x74 case _ => 0x75
  }

  function Asc2FtRowC(k: nat): byte {
    match k
    case 0 => 0x76 case 1 => 0x77 case 2 => 0x78 case 3 => 0x80
    case 4 => 0x8A case 5 => 0x8B case 6 => 0x8C case 7 => 0x8D
    case 8 => 0x8E case 9 => 0x8F case 10 => 0x90 case 11 => 0x9A
    case 12 => 0x9B case 13 => 0x9C case 14 => 0x9D case _ => 0x9E
  }

  function Asc2FtRowD(k: nat): byte {
    match k
    case 0 => 0x9F case 1 => 0xA0 case 2 => 0xAA case 3 => 0xAB
    case 4 => 0xAC case 5 => 0xAD case 6 => 0xAE case 7 => 0xAF
    case 8 => 0xB0 case 9 => 0xB1 case 10 => 0xB2 case 11 => 0xB3
    case 12 => 0xB4 case 13 => 0xB5 case 14 => 0xB6 case _ => 0xB7
  }

  function Asc2FtRowE(k: nat): byte {
    match k
    case 0 => 0xB8 case 1 => 0xB9 case 2 => 0xBA case 3 => 0xBB
    case 4 => 0xBC case 5 => 0xBD case 6 => 0xBE case 7 => 0xBF
    case 8 => 0xCA case 9 => 0xCB case 10 => 0xCC case 11 => 0xCD
    case 12 => 0xCE case 13 => 0xCF case 14 => 0xDA case _ => 0xDB
  }

  function Asc2FtRowF(k: nat): byte {
    match k
    case 0 => 0xDC case 1 => 0xDD case 2 => 0xDE case 3 => 0xDF
    case 4 => 0xEA case 5 => 0xEB case 6 => 0xEC case 7 => 0xED
    case 8 => 0xEE case 9 => 0xEF case 10 => 0xFA case 11 => 0xFB
    case 12 => 0xFC case 13 => 0xFD case 14 => 0xFE case _ => 0xFF
  }

  // i_ft2asc
  function Ft2Asc(c: byte): byte {
    match c / 16
    case 0 => Ft2AscRow0(c % 16)
    case 1 => Ft2AscRow1(c % 16)
    case 2 => Ft2AscRow2(c % 16)
    case 3 => Ft2AscRow3(c % 16)
    case 4 => Ft2AscRow4(c % 16)
    case 5 => Ft2AscRow5(c % 16)
    case 6 => Ft2AscRow6(c % 16)
    case 7 => Ft2AscRow7(c % 16)
    case 8 => Ft2AscRow8(c % 16)
    case 9 => Ft2AscRow9(c % 16)
    case 10 => Ft2AscRowA(c % 16)
    case 11 => Ft2AscRowB(c % 16)
    case 12 => Ft2AscRowC(c % 16)
    case 13 => Ft2AscRowD(c % 16)
    case 14 => Ft2AscRowE(c % 16)
    case _ => Ft2AscRowF(c % 16)
  }

  function Ft2AscRow0(k: nat): byte {
    match k
    case 0 => 0x00 case 1 => 0x01 case 2 => 0x02 case 3 => 0x03
    case 4 => 0x9C case 5 => 0x09 case 6 => 0x86 case 7 => 0x7F
    case 8 => 0x97 case 9 => 0x8D case 10 => 0x0A case 11 => 0x0B
    case 12 => 0x0C case 13 => 0x0D case 14 => 0x0E case _ => 0x0F
  }

  function Ft2AscRow1(k: nat): byte {
    match k
    case 0 => 0x10 case 1 => 0x11 case 2 => 0x12 case 3 => 0x13
    case 4 => 0x9D case 5 => 0x85 case 6 => 0x08 case 7 => 0x87
    case 8 => 0x18 case 9 => 0x19 case 10 => 0x92 case 11 => 0x8F
    case 12 => 0x1C case 13 => 0x1D case 14 => 0x1E case _ => 0x1F
  }

  function Ft2AscRow2(k: nat): byte {
    match k
    case 0 => 0x80 case 1 => 0x81 case 2 => 0x82 case 3 => 0x83
    case 4 => 0x84 case 5 => 0x00 case 6 => 0x17 case 7 => 0x1B
    case 8 => 0x88 case 9 => 0x89 case 10 => 0x8A case 11 => 0x8B
    case 12 => 0x8C case 13 => 0x05 case 14 => 0x06 case _ => 0x07
  }

  function Ft2AscRow3(k: nat): byte {
    match k
    case 0 => 0x90 case 1 => 0x91 case 2 => 0x16 case 3 => 0x93
    case 4 => 0x94 case 5 => 0x95 case 6 => 0x96 case 7 => 0x04
    case 8 => 0x98 case 9 => 0x99 case 10 => 0x9A case 11 => 0x9B
    case 12 => 0x14 case 13 => 0x15 case 14 => 0x9E case _ => 0x1A
  }

  function Ft2AscRow4(k: nat): byte {
    match k
    case 0 => 0x20 case 1 => 0xA0 case 2 => 0xA1 case 3 => 0xA2
    case 4 => 0xA3 case 5 => 0xA4 case 6 => 0xA5 case 7 => 0xA6
    case 8 => 0xA7 case 9 => 0xA8 case 10 => 0x5B case 11 => 0x2E
    case 12 => 0x3C case 13 => 0x28 case 14 => 0x2B case _ => 0x5D
  }

  function Ft2AscRow5(k: nat): byte {
    match k
    case 0 => 0x26 case 1 => 0xA9 case 2 => 0xAA case 3 => 0xAB
    case 4 => 0xAC case 5 => 0xAD case 6 => 0xAE case 7 => 0xAF
    case 8 => 0xB0 case 9 => 0xB1 case 10 => 0x21 case 11 => 0x24
    case 12 => 0x2A case 13 => 0x29 case 14 => 0x3B case _ => 0x5E
  }

  function Ft2AscRow6(k: nat): byte {
    match k
    case 0 => 0x2D case 1 => 0x2F case 2 => 0xB2 case 3 => 0xB3
    case 4 => 0xB4 case 5 => 0xB5 case 6 => 0xB6 case 7 => 0xB7
    case 8 => 0xB8 case 9 => 0xB9 case 10 => 0x7C case 11 => 0x2C
    case 12 => 0x25 case 13 => 0x5F case 14 => 0x3E case _ => 0x3F
  }

  function Ft2AscRow7(k: nat): byte {
    match k
    case 0 => 0xBA case 1 => 0xBB case 2 => 0xBC case 3 => 0xBD
    case 4 => 0xBE case 5 => 0xBF case 6 => 0xC0 case 7 => 0xC1
    case 8 => 0xC2 case 9 => 0x60 case 10 => 0x3A case 11 => 0x23
    case 12 => 0x40 case 13 => 0x27 case 14 => 0x3D case _ => 0x22
  }

  function Ft2AscRow8(k: nat): byte {
    match k
    case 0 => 0xC3 case 1 => 0x61 case 2 => 0x62 case 3 => 0x63
    case 4 => 0x64 case 5 => 0x65 case 6 => 0x66 case 7 => 0x67
    case 8 => 0x68 case 9 => 0x69 case 10 => 0xC4 case 11 => 0xC5
    case 12 => 0xC6 case 13 => 0xC7 case 14 => 0xC8 case _ => 0xC9
  }

  function Ft2AscRow9(k: nat): byte {
    match k
    case 0 => 0xCA case 1 => 0x6A case 2 => 0x6B case 3 => 0x6C
    case 4 => 0x6D case 5 => 0x6E case 6 => 0x6F case 7 => 0x70
    case 8 => 0x71 case 9 => 0x72 case 10 => 0xCB case 11 => 0xCC
    case 12 => 0xCD case 13 => 0xCE case 14 => 0xCF case _ => 0xD0
  }

  function Ft2AscRowA(k: nat): byte {
    match k
    case 0 => 0xD1 case 1 => 0x7E case 2 => 0x73 case 3 => 0x74
    case 4 => 0x75 case 5 => 0x76 case 6 => 0x77 case 7 => 0x78
    case 8 => 0x79 case 9 => 0x7A case 10 => 0xD2 case 11 => 0xD3
    case 12 => 0xD4 case 13 => 0xD5 case 14 => 0xD6 case _ => 0xD7
  }

  function Ft2AscRowB(k: nat): byte {
    match k
    case 0 => 0xD8 case 1 => 0xD9 case 2 => 0xDA case 3 => 0xDB
    case 4 => 0xDC case 5 => 0xDD case 6 => 0xDE case 7 => 0xDF
    case 8 => 0xE0 case 9 => 0xE1 case 10 => 0xE2 case 11 => 0xE3
    case 12 => 0xE4 case 13 => 0xE5 case 14 => 0xE6 case _ => 0xE7
  }

  function Ft2AscRowC(k: nat): byte {
    match k
    case 0 => 0x7B case 1 => 0x41 case 2 => 0x42 case 3 => 0x43
    case 4 => 0x44 case 5 => 0x45 case 6 => 0x46 case 7 => 0x47
    case 8 => 0x48 case 9 => 0x49 case 10 => 0xE8 case 11 => 0xE9
    case 12 => 0xEA case 13 => 0xEB case 14 => 0xEC case _ => 0xED
  }

  function Ft2AscRowD(k: nat): byte {
    match k
    case 0 => 0x7D case 1 => 0x4A case 2 => 0x4B case 3 => 0x4C
    case 4 => 0x4D case 5 => 0x4E case 6 => 0x4F case 7 => 0x50
    case 8 => 0x51 case 9 => 0x52 case 10 => 0xEE case 11 => 0xEF
    case 12 => 0xF0 case 13 => 0xF1 case 14 => 0xF2 case _ => 0xF3
  }

  function Ft2AscRowE(k: nat): byte {
    match k
    case 0 => 0x5C case 1 => 0x9F case 2 => 0x53 case 3 => 0x54
    case 4 => 0x55 case 5 => 0x56 case 6 => 0x57 case 7 => 0x58
    case 8 => 0x59 case 9 => 0x5A case 10 => 0xF4 case 11 => 0xF5
    case 12 => 0xF6 case 13 => 0xF7 case 14 => 0xF8 case _ => 0xF9
  }

  function Ft2AscRowF(k: nat): byte {
    match k
    case 0 => 0x30 case 1 => 0x31 case 2 => 0x32 case 3 => 0x33
    case 4 => 0x34 case 5 => 0x35 case 6 => 0x36 case 7 => 0x37
    case 8 => 0x38 case 9 => 0x39 case 10 => 0xFA case 11 => 0xFB
    case 12 => 0xFC case 13 => 0xFD case 14 => 0xFE case _ => 0xFF
  }
}
