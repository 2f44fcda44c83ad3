/** The CP1251 code page: from Unicode code points to glyph numbers, and back. */
module CodePage {

  const QUESTION: nat := 0x3F

  /** unicode_to_cp1251. */
  function ToCp1251(uni: nat): (g: nat)
    ensures g < 0x100
  {
    if uni < 0x80 then uni
    else if 0x0410 <= uni <= 0x044F then 0xC0 + (uni - 0x0410)
    else
    match uni
    case 0x0402 => 0x80
    case 0x0403 => 0x81
    case 0x201A => 0x82
    case 0x0453 => 0x83
    case 0x201E => 0x84
    case 0x2026 => 0x85
    case 0x2020 => 0x86
    case 0x2021 => 0x87
    case 0x20AC => 0x88
    case 0x2030 => 0x89
    case 0x0409 => 0x8A
    case 0x2039 => 0x8B
    case 0x040A => 0x8C
    case 0x040C => 0x8D
    case 0x040B => 0x8E
    case 0x040F => 0x8F
    case 0x0452 => 0x90
    case 0x2018 => 0x91
    case 0x2019 => 0x92
    case 0x201C => 0x93
    case 0x201D => 0x94
    case 0x2022 => 0x95
    case 0x2013 => 0x96
    case 0x2014 => 0x97
    case 0x2122 => 0x99
    case 0x0459 => 0x9A
    case 0x203A => 0x9B
    case 0x045A => 0x9C
    case 0x045C => 0x9D
    case 0x045B => 0x9E
    case 0x045F => 0x9F
    case 0x00A0 => 0xA0
    case 0x040E => 0xA1
    case 0x045E => 0xA2
    case 0x0408 => 0xA3
    case 0x00A4 => 0xA4
    case 0x0490 => 0xA5
    case 0x00A6 => 0xA6
    case 0x00A7 => 0xA7
    case 0x0401 => 0xA8
    case 0x00A9 => 0xA9
    case 0x0404 => 0xAA
    case 0x00AB => 0xAB
    case 0x00AC => 0xAC
    case 0x00AD => 0xAD
    case 0x00AE => 0xAE
    case 0x0407 => 0xAF
    case 0x00B0 => 0xB0
    case 0x00B1 => 0xB1
    case 0x0406 => 0xB2
    case 0x0456 => 0xB3
    case 0x0491 => 0xB4
    case 0x00B5 => 0xB5
    case 0x00B6 => 0xB6
    case 0x00B7 => 0xB7
    case 0x0451 => 0xB8
    case 0x2116 => 0xB9
    case 0x0454 => 0xBA
    case 0x00BB => 0xBB
    case 0x0458 => 0xBC
    case 0x0405 => 0xBD
    case 0x0455 => 0xBE
    case 0x0457 => 0xBF
    case _ => QUESTION
  }

  /** The code point a CP1251 byte stands for; 0x98 is unassigned. */
  function FromCp1251(g: nat): nat {
    if g < 0x80 then g
    else if g >= 0xC0 then 0x0410 + (g - 0xC0)
    else
    match g
    case 0x80 => 0x0402
    case 0x81 => 0x0403
    case 0x82 => 0x201A
    case 0x83 => 0x0453
    case 0x84 => 0x201E
    case 0x85 => 0x2026
    case 0x86 => 0x2020
    case 0x87 => 0x2021
    case 0x88 => 0x20AC
    case 0x89 => 0x2030
    case 0x8A => 0x0409
    case 0x8B => 0x2039
    case 0x8C => 0x040A
    case 0x8D => 0x040C
    case 0x8E => 0x040B
    case 0x8F => 0x040F
    case 0x90 => 0x0452
    case 0x91 => 0x2018
    case 0x92 => 0x2019
    case 0x93 => 0x201C
    case 0x94 => 0x201D
    case 0x95 => 0x2022
    case 0x96 => 0x2013
    case 0x97 => 0x2014
    case 0x99 => 0x2122
    case 0x9A => 0x0459
    case 0x9B => 0x203A
    case 0x9C => 0x045A
    case 0x9D => 0x045C
    case 0x9E => 0x045B
    case 0x9F => 0x045F
    case 0xA0 => 0x00A0
    case 0xA1 => 0x040E
    case 0xA2 => 0x045E
    case 0xA3 => 0x0408
    case 0xA4 => 0x00A4
    case 0xA5 => 0x0490
    case 0xA6 => 0x00A6
    case 0xA7 => 0x00A7
    case 0xA8 => 0x0401
    case 0xA9 => 0x00A9
    case 0xAA => 0x0404
    case 0xAB => 0x00AB
    case 0xAC => 0x00AC
    case 0xAD => 0x00AD
    case 0xAE => 0x00AE
    case 0xAF => 0x0407
    case 0xB0 => 0x00B0
    case 0xB1 => 0x00B1
    case 0xB2 => 0x0406
    case 0xB3 => 0x0456
    case 0xB4 => 0x0491
    case 0xB5 => 0x00B5
    case 0xB6 => 0x00B6
    case 0xB7 => 0x00B7
    case 0xB8 => 0x0451
    case 0xB9 => 0x2116
    case 0xBA => 0x0454
    case 0xBB => 0x00BB
    case 0xBC => 0x0458
    case 0xBD => 0x0405
    case 0xBE => 0x0455
    case 0xBF => 0x0457
    case _ => QUESTION
  }

  /** Every assigned CP1251 byte is the glyph of its own code point. */
  lemma EncodeDecode(g: nat)
    requires g < 0x100 && g != 0x98
    ensures ToCp1251(FromCp1251(g)) == g
  {
  }

  /** A code point is shown as its own character exactly when CP1251 has it; otherwise as a question mark. */
  lemma DecodeEncode(uni: nat)
    ensures FromCp1251(ToCp1251(uni)) == uni || ToCp1251(uni) == QUESTION
    ensures (exists g :: 0 <= g < 0x100 && FromCp1251(g) == uni) <==> FromCp1251(ToCp1251(uni)) == uni
  {
    if g :| 0 <= g < 0x100 && FromCp1251(g) == uni && g != 0x98 { EncodeDecode(g); }
  }
}
