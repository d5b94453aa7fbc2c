/**
 The field GF(256) of the Reed-Solomon codec: polynomials over GF(2) modulo
 x^8 + x^7 + x^2 + x + 1 (0x187), one bit per coefficient.

 `Mul` is the reference product, shift-and-add with reduction.  The codec never
 multiplies that way: it adds logarithms taken from two 256-entry tables.  This
 module states what the tables are (the powers of x, and their inverse) and proves
 that the table arithmetic is the field's arithmetic.

 Proofs hide the definitions of `Add` and `Mul` wherever the field laws are enough.
 */
module GF256 {

  // ---------------------------------------------------------------- reference arithmetic

  /** Addition is exclusive or; it is also subtraction. */
  function Add(a: bv8, b: bv8): bv8 { a ^ b }

  /** Multiplication by x modulo 0x187. */
  function Xtime(a: bv8): bv8 { (a << 1) ^ ((a >> 7) * 0x87) }

  /** `a` when the lowest bit of `c` is set, otherwise zero. */
  function Gate(c: bv8, a: bv8): bv8 { if c & 1 != 0 then a else 0 }

  /** The product in GF(2)[x]/0x187: the sum of x^k * a over the bits k of b. */
  function Mul(a: bv8, b: bv8): bv8
    decreases b
  {
    if b == 0 then 0 else Add(Gate(b, a), Mul(Xtime(a), b >> 1))
  }

  /** x to the power n. */
  function Pow(n: nat): bv8 {
    if n == 0 then 1 else Xtime(Pow(n - 1))
  }

  /** a to the power n. */
  function Power(a: bv8, n: nat): bv8 {
    if n == 0 then 1 else Mul(a, Power(a, n - 1))
  }

  // ---------------------------------------------------------------- the two tables

  /** The reserved logarithm of zero. */
  const A0: bv8 := 255

  /** `ALPHA_TO`, the antilogarithms: the entries stand in order of their index, found bit by bit. */
  function AlphaTo(i: bv8): bv8 {
    if i & 0x80 == 0 then
      (if i & 0x40 == 0 then
        (if i & 0x20 == 0 then
          (if i & 0x10 == 0 then
            (if i & 0x08 == 0 then
              (if i & 0x04 == 0 then
                (if i & 2 == 0 then (if i & 1 == 0 then 0x01 else 0x02) else (if i & 1 == 0 then 0x04 else 0x08))
              else
                (if i & 2 == 0 then (if i & 1 == 0 then 0x10 else 0x20) else (if i & 1 == 0 then 0x40 else 0x80)))
            else
              (if i & 0x04 == 0 then
                (if i & 2 == 0 then (if i & 1 == 0 then 0x87 else 0x89) else (if i & 1 == 0 then 0x95 else 0xAD))
              else
                (if i & 2 == 0 then (if i & 1 == 0 then 0xDD else 0x3D) else (if i & 1 == 0 then 0x7A else 0xF4))))
          else
            (if i & 0x08 == 0 then
              (if i & 0x04 == 0 then
                (if i & 2 == 0 then (if i & 1 == 0 then 0x6F else 0xDE) else (if i & 1 == 0 then 0x3B else 0x76))
              else
                (if i & 2 == 0 then (if i & 1 == 0 then 0xEC else 0x5F) else (if i & 1 == 0 then 0xBE else 0xFB)))
            else
              (if i & 0x04 == 0 then
                (if i & 2 == 0 then (if i & 1 == 0 then 0x71 else 0xE2) else (if i & 1 == 0 then 0x43 else 0x86))
              else
                (if i & 2 == 0 then (if i & 1 == 0 then 0x8B else 0x91) else (if i & 1 == 0 then 0xA5 else 0xCD)))))
        else
          (if i & 0x10 == 0 then
            (if i & 0x08 == 0 then
              (if i & 0x04 == 0 then
                (if i & 2 == 0 then (if i & 1 == 0 then 0x1D else 0x3A) else (if i & 1 == 0 then 0x74 else 0xE8))
              else
                (if i & 2 == 0 then (if i & 1 == 0 then 0x57 else 0xAE) else (if i & 1 == 0 then 0xDB else 0x31)))
            else
              (if i & 0x04 == 0 then
                (if i & 2 == 0 then (if i & 1 == 0 then 0x62 else 0xC4) else (if i & 1 == 0 then 0x0F else 0x1E))
              else
                (if i & 2 == 0 then (if i & 1 == 0 then 0x3C else 0x78) else (if i & 1 == 0 then 0xF0 else 0x67))))
          else
            (if i & 0x08 == 0 then
              (if i & 0x04 == 0 then
                (if i & 2 == 0 then (if i & 1 == 0 then 0xCE else 0x1B) else (if i & 1 == 0 then 0x36 else 0x6C))
              else
                (if i & 2 == 0 then (if i & 1 == 0 then 0xD8 else 0x37) else (if i & 1 == 0 then 0x6E else 0xDC)))
            else
              (if i & 0x04 == 0 then
                (if i & 2 == 0 then (if i & 1 == 0 then 0x3F else 0x7E) else (if i & 1 == 0 then 0xFC else 0x7F))
              else
                (if i & 2 == 0 then (if i & 1 == 0 then 0xFE else 0x7B) else (if i & 1 == 0 then 0xF6 else 0x6B))))))
      else
        (if i & 0x20 == 0 then
          (if i & 0x10 == 0 then
            (if i & 0x08 == 0 then
              (if i & 0x04 == 0 then
                (if i & 2 == 0 then (if i & 1 == 0 then 0xD6 else 0x2B) else (if i & 1 == 0 then 0x56 else 0xAC))
              else
                (if i & 2 == 0 then (if i & 1 == 0 then 0xDF else 0x39) else (if i & 1 == 0 then 0x72 else 0xE4)))
            else
              (if i & 0x04 == 0 then
                (if i & 2 == 0 then (if i & 1 == 0 then 0x4F else 0x9E) else (if i & 1 == 0 then 0xBB else 0xF1))
              else
                (if i & 2 == 0 then (if i & 1 == 0 then 0x65 else 0xCA) else (if i & 1 == 0 then 0x13 else 0x26))))
          else
            (if i & 0x08 == 0 then
              (if i & 0x04 == 0 then
                (if i & 2 == 0 then (if i & 1 == 0 then 0x4C else 0x98) else (if i & 1 == 0 then 0xB7 else 0xE9))
              else
                (if i & 2 == 0 then (if i & 1 == 0 then 0x55 else 0xAA) else (if i & 1 == 0 then 0xD3 else 0x21)))
            else
              (if i & 0x04 == 0 then
                (if i & 2 == 0 then (if i & 1 == 0 then 0x42 else 0x84) else (if i & 1 == 0 then 0x8F else 0x99))
              else
                (if i & 2 == 0 then (if i & 1 == 0 then 0xB5 else 0xED) else (if i & 1 == 0 then 0x5D else 0xBA)))))
        else
          (if i & 0x10 == 0 then
            (if i & 0x08 == 0 then
              (if i & 0x04 == 0 then
                (if i & 2 == 0 then (if i & 1 == 0 then 0xF3 else 0x61) else (if i & 1 == 0 then 0xC2 else 0x03))
              else
                (if i & 2 == 0 then (if i & 1 == 0 then 0x06 else 0x0C) else (if i & 1 == 0 then 0x18 else 0x30)))
            else
              (if i & 0x04 == 0 then
                (if i & 2 == 0 then (if i & 1 == 0 then 0x60 else 0xC0) else (if i & 1 == 0 then 0x07 else 0x0E))
              else
                (if i & 2 == 0 then (if i & 1 == 0 then 0x1C else 0x38) else (if i & 1 == 0 then 0x70 else 0xE0))))
          else
            (if i & 0x08 == 0 then
              (if i & 0x04 == 0 then
                (if i & 2 == 0 then (if i & 1 == 0 then 0x47 else 0x8E) else (if i & 1 == 0 then 0x9B else 0xB1))
              else
                (if i & 2 == 0 then (if i & 1 == 0 then 0xE5 else 0x4D) else (if i & 1 == 0 then 0x9A else 0xB3)))
            else
              (if i & 0x04 == 0 then
                (if i & 2 == 0 then (if i & 1 == 0 then 0xE1 else 0x45) else (if i & 1 == 0 then 0x8A else 0x93))
              else
                (if i & 2 == 0 then (if i & 1 == 0 then 0xA1 else 0xC5) else (if i & 1 == 0 then 0x0D else 0x1A)))))))
    else
      (if i & 0x40 == 0 then
        (if i & 0x20 == 0 then
          (if i & 0x10 == 0 then
            (if i & 0x08 == 0 then
              (if i & 0x04 == 0 then
                (if i & 2 == 0 then (if i & 1 == 0 then 0x34 else 0x68) else (if i & 1 == 0 then 0xD0 else 0x27))
              else
                (if i & 2 == 0 then (if i & 1 == 0 then 0x4E else 0x9C) else (if i & 1 == 0 then 0xBF else 0xF9)))
            else
              (if i & 0x04 == 0 then
                (if i & 2 == 0 then (if i & 1 == 0 then 0x75 else 0xEA) else (if i & 1 == 0 then 0x53 else 0xA6))
              else
                (if i & 2 == 0 then (if i & 1 == 0 then 0xCB else 0x11) else (if i & 1 == 0 then 0x22 else 0x44))))
          else
            (if i & 0x08 == 0 then
              (if i & 0x04 == 0 then
                (if i & 2 == 0 then (if i & 1 == 0 then 0x88 else 0x97) else (if i & 1 == 0 then 0xA9 else 0xD5))
              else
                (if i & 2 == 0 then (if i & 1 == 0 then 0x2D else 0x5A) else (if i & 1 == 0 then 0xB4 else 0xEF)))
            else
              (if i & 0x04 == 0 then
                (if i & 2 == 0 then (if i & 1 == 0 then 0x59 else 0xB2) else (if i & 1 == 0 then 0xE3 else 0x41))
              else
                (if i & 2 == 0 then (if i & 1 == 0 then 0x82 else 0x83) else (if i & 1 == 0 then 0x81 else 0x85)))))
        else
          (if i & 0x10 == 0 then
            (if i & 0x08 == 0 then
              (if i & 0x04 == 0 then
                (if i & 2 == 0 then (if i & 1 == 0 then 0x8D else 0x9D) else (if i & 1 == 0 then 0xBD else 0xFD))
              else
                (if i & 2 == 0 then (if i & 1 == 0 then 0x7D else 0xFA) else (if i & 1 == 0 then 0x73 else 0xE6)))
            else
              (if i & 0x04 == 0 then
                (if i & 2 == 0 then (if i & 1 == 0 then 0x4B else 0x96) else (if i & 1 == 0 then 0xAB else 0xD1))
              else
                (if i & 2 == 0 then (if i & 1 == 0 then 0x25 else 0x4A) else (if i & 1 == 0 then 0x94 else 0xAF))))
          else
            (if i & 0x08 == 0 then
              (if i & 0x04 == 0 then
                (if i & 2 == 0 then (if i & 1 == 0 then 0xD9 else 0x35) else (if i & 1 == 0 then 0x6A else 0xD4))
              else
                (if i & 2 == 0 then (if i & 1 == 0 then 0x2F else 0x5E) else (if i & 1 == 0 then 0xBC else 0xFF)))
            else
              (if i & 0x04 == 0 then
                (if i & 2 == 0 then (if i & 1 == 0 then 0x79 else 0xF2) else (if i & 1 == 0 then 0x63 else 0xC6))
              else
                (if i & 2 == 0 then (if i & 1 == 0 then 0x0B else 0x16) else (if i & 1 == 0 then 0x2C else 0x58))))))
      else
        (if i & 0x20 == 0 then
          (if i & 0x10 == 0 then
            (if i & 0x08 == 0 then
              (if i & 0x04 == 0 then
                (if i & 2 == 0 then (if i & 1 == 0 then 0xB0 else 0xE7) else (if i & 1 == 0 then 0x49 else 0x92))
              else
                (if i & 2 == 0 then (if i & 1 == 0 then 0xA3 else 0xC1) else (if i & 1 == 0 then 0x05 else 0x0A)))
            else
              (if i & 0x04 == 0 then
                (if i & 2 == 0 then (if i & 1 == 0 then 0x14 else 0x28) else (if i & 1 == 0 then 0x50 else 0xA0))
              else
                (if i & 2 == 0 then (if i & 1 == 0 then 0xC7 else 0x09) else (if i & 1 == 0 then 0x12 else 0x24))))
          else
            (if i & 0x08 == 0 then
              (if i & 0x04 == 0 then
                (if i & 2 == 0 then (if i & 1 == 0 then 0x48 else 0x90) else (if i & 1 == 0 then 0xA7 else 0xC9))
              else
                (if i & 2 == 0 then (if i & 1 == 0 then 0x15 else 0x2A) else (if i & 1 == 0 then 0x54 else 0xA8)))
            else
              (if i & 0x04 == 0 then
                (if i & 2 == 0 then (if i & 1 == 0 then 0xD7 else 0x29) else (if i & 1 == 0 then 0x52 else 0xA4))
              else
                (if i & 2 == 0 then (if i & 1 == 0 then 0xCF else 0x19) else (if i & 1 == 0 then 0x32 else 0x64)))))
        else
          (if i & 0x10 == 0 then
            (if i & 0x08 == 0 then
              (if i & 0x04 == 0 then
                (if i & 2 == 0 then (if i & 1 == 0 then 0xC8 else 0x17) else (if i & 1 == 0 then 0x2E else 0x5C))
              else
                (if i & 2 == 0 then (if i & 1 == 0 then 0xB8 else 0xF7) else (if i & 1 == 0 then 0x69 else 0xD2)))
            else
              (if i & 0x04 == 0 then
                (if i & 2 == 0 then (if i & 1 == 0 then 0x23 else 0x46) else (if i & 1 == 0 then 0x8C else 0x9F))
              else
                (if i & 2 == 0 then (if i & 1 == 0 then 0xB9 else 0xF5) else (if i & 1 == 0 then 0x6D else 0xDA))))
          else
            (if i & 0x08 == 0 then
              (if i & 0x04 == 0 then
                (if i & 2 == 0 then (if i & 1 == 0 then 0x33 else 0x66) else (if i & 1 == 0 then 0xCC else 0x1F))
              else
                (if i & 2 == 0 then (if i & 1 == 0 then 0x3E else 0x7C) else (if i & 1 == 0 then 0xF8 else 0x77)))
            else
              (if i & 0x04 == 0 then
                (if i & 2 == 0 then (if i & 1 == 0 then 0xEE else 0x5B) else (if i & 1 == 0 then 0xB6 else 0xEB))
              else
                (if i & 2 == 0 then (if i & 1 == 0 then 0x51 else 0xA2) else (if i & 1 == 0 then 0xC3 else 0x00)))))))
  }

  /** `INDEX_OF`, the logarithms, with `A0` for zero: the entries stand in order of their index. */
  function IndexOf(i: bv8): bv8 {
    if i & 0x80 == 0 then
      (if i & 0x40 == 0 then
        (if i & 0x20 == 0 then
          (if i & 0x10 == 0 then
            (if i & 0x08 == 0 then
              (if i & 0x04 == 0 then
                (if i & 2 == 0 then (if i & 1 == 0 then 0xFF else 0x00) else (if i & 1 == 0 then 0x01 else 0x63))
              else
                (if i & 2 == 0 then (if i & 1 == 0 then 0x02 else 0xC6) else (if i & 1 == 0 then 0x64 else 0x6A)))
            else
              (if i & 0x04 == 0 then
                (if i & 2 == 0 then (if i & 1 == 0 then 0x03 else 0xCD) else (if i & 1 == 0 then 0xC7 else 0xBC))
              else
                (if i & 2 == 0 then (if i & 1 == 0 then 0x65 else 0x7E) else (if i & 1 == 0 then 0x6B else 0x2A))))
          else
            (if i & 0x08 == 0 then
              (if i & 0x04 == 0 then
                (if i & 2 == 0 then (if i & 1 == 0 then 0x04 else 0x8D) else (if i & 1 == 0 then 0xCE else 0x4E))
              else
                (if i & 2 == 0 then (if i & 1 == 0 then 0xC8 else 0xD4) else (if i & 1 == 0 then 0xBD else 0xE1)))
            else
              (if i & 0x04 == 0 then
                (if i & 2 == 0 then (if i & 1 == 0 then 0x66 else 0xDD) else (if i & 1 == 0 then 0x7F else 0x31))
              else
                (if i & 2 == 0 then (if i & 1 == 0 then 0x6C else 0x20) else (if i & 1 == 0 then 0x2B else 0xF3)))))
        else
          (if i & 0x10 == 0 then
            (if i & 0x08 == 0 then
              (if i & 0x04 == 0 then
                (if i & 2 == 0 then (if i & 1 == 0 then 0x05 else 0x57) else (if i & 1 == 0 then 0x8E else 0xE8))
              else
                (if i & 2 == 0 then (if i & 1 == 0 then 0xCF else 0xAC) else (if i & 1 == 0 then 0x4F else 0x83)))
            else
              (if i & 0x04 == 0 then
                (if i & 2 == 0 then (if i & 1 == 0 then 0xC9 else 0xD9) else (if i & 1 == 0 then 0xD5 else 0x41))
              else
                (if i & 2 == 0 then (if i & 1 == 0 then 0xBE else 0x94) else (if i & 1 == 0 then 0xE2 else 0xB4))))
          else
            (if i & 0x08 == 0 then
              (if i & 0x04 == 0 then
                (if i & 2 == 0 then (if i & 1 == 0 then 0x67 else 0x27) else (if i & 1 == 0 then 0xDE else 0xF0))
              else
                (if i & 2 == 0 then (if i & 1 == 0 then 0x80 else 0xB1) else (if i & 1 == 0 then 0x32 else 0x35)))
            else
              (if i & 0x04 == 0 then
                (if i & 2 == 0 then (if i & 1 == 0 then 0x6D else 0x45) else (if i & 1 == 0 then 0x21 else 0x12))
              else
                (if i & 2 == 0 then (if i & 1 == 0 then 0x2C else 0x0D) else (if i & 1 == 0 then 0xF4 else 0x38))))))
      else
        (if i & 0x20 == 0 then
          (if i & 0x10 == 0 then
            (if i & 0x08 == 0 then
              (if i & 0x04 == 0 then
                (if i & 2 == 0 then (if i & 1 == 0 then 0x06 else 0x9B) else (if i & 1 == 0 then 0x58 else 0x1A))
              else
                (if i & 2 == 0 then (if i & 1 == 0 then 0x8F else 0x79) else (if i & 1 == 0 then 0xE9 else 0x70)))
            else
              (if i & 0x04 == 0 then
                (if i & 2 == 0 then (if i & 1 == 0 then 0xD0 else 0xC2) else (if i & 1 == 0 then 0xAD else 0xA8))
              else
                (if i & 2 == 0 then (if i & 1 == 0 then 0x50 else 0x75) else (if i & 1 == 0 then 0x84 else 0x48))))
          else
            (if i & 0x08 == 0 then
              (if i & 0x04 == 0 then
                (if i & 2 == 0 then (if i & 1 == 0 then 0xCA else 0xFC) else (if i & 1 == 0 then 0xDA else 0x8A))
              else
                (if i & 2 == 0 then (if i & 1 == 0 then 0xD6 else 0x54) else (if i & 1 == 0 then 0x42 else 0x24)))
            else
              (if i & 0x04 == 0 then
                (if i & 2 == 0 then (if i & 1 == 0 then 0xBF else 0x98) else (if i & 1 == 0 then 0x95 else 0xF9))
              else
                (if i & 2 == 0 then (if i & 1 == 0 then 0xE3 else 0x5E) else (if i & 1 == 0 then 0xB5 else 0x15)))))
        else
          (if i & 0x10 == 0 then
            (if i & 0x08 == 0 then
              (if i & 0x04 == 0 then
                (if i & 2 == 0 then (if i & 1 == 0 then 0x68 else 0x61) else (if i & 1 == 0 then 0x28 else 0xBA))
              else
                (if i & 2 == 0 then (if i & 1 == 0 then 0xDF else 0x4C) else (if i & 1 == 0 then 0xF1 else 0x2F)))
            else
              (if i & 0x04 == 0 then
                (if i & 2 == 0 then (if i & 1 == 0 then 0x81 else 0xE6) else (if i & 1 == 0 then 0xB2 else 0x3F))
              else
                (if i & 2 == 0 then (if i & 1 == 0 then 0x33 else 0xEE) else (if i & 1 == 0 then 0x36 else 0x10))))
          else
            (if i & 0x08 == 0 then
              (if i & 0x04 == 0 then
                (if i & 2 == 0 then (if i & 1 == 0 then 0x6E else 0x18) else (if i & 1 == 0 then 0x46 else 0xA6))
              else
                (if i & 2 == 0 then (if i & 1 == 0 then 0x22 else 0x88) else (if i & 1 == 0 then 0x13 else 0xF7)))
            else
              (if i & 0x04 == 0 then
                (if i & 2 == 0 then (if i & 1 == 0 then 0x2D else 0xB8) else (if i & 1 == 0 then 0x0E else 0x3D))
              else
                (if i & 2 == 0 then (if i & 1 == 0 then 0xF5 else 0xA4) else (if i & 1 == 0 then 0x39 else 0x3B)))))))
    else
      (if i & 0x40 == 0 then
        (if i & 0x20 == 0 then
          (if i & 0x10 == 0 then
            (if i & 0x08 == 0 then
              (if i & 0x04 == 0 then
                (if i & 2 == 0 then (if i & 1 == 0 then 0x07 else 0x9E) else (if i & 1 == 0 then 0x9C else 0x9D))
              else
                (if i & 2 == 0 then (if i & 1 == 0 then 0x59 else 0x9F) else (if i & 1 == 0 then 0x1B else 0x08)))
            else
              (if i & 0x04 == 0 then
                (if i & 2 == 0 then (if i & 1 == 0 then 0x90 else 0x09) else (if i & 1 == 0 then 0x7A else 0x1C))
              else
                (if i & 2 == 0 then (if i & 1 == 0 then 0xEA else 0xA0) else (if i & 1 == 0 then 0x71 else 0x5A))))
          else
            (if i & 0x08 == 0 then
              (if i & 0x04 == 0 then
                (if i & 2 == 0 then (if i & 1 == 0 then 0xD1 else 0x1D) else (if i & 1 == 0 then 0xC3 else 0x7B))
              else
                (if i & 2 == 0 then (if i & 1 == 0 then 0xAE else 0x0A) else (if i & 1 == 0 then 0xA9 else 0x91)))
            else
              (if i & 0x04 == 0 then
                (if i & 2 == 0 then (if i & 1 == 0 then 0x51 else 0x5B) else (if i & 1 == 0 then 0x76 else 0x72))
              else
                (if i & 2 == 0 then (if i & 1 == 0 then 0x85 else 0xA1) else (if i & 1 == 0 then 0x49 else 0xEB)))))
        else
          (if i & 0x10 == 0 then
            (if i & 0x08 == 0 then
              (if i & 0x04 == 0 then
                (if i & 2 == 0 then (if i & 1 == 0 then 0xCB else 0x7C) else (if i & 1 == 0 then 0xFD else 0xC4))
              else
                (if i & 2 == 0 then (if i & 1 == 0 then 0xDB else 0x1E) else (if i & 1 == 0 then 0x8B else 0xD2)))
            else
              (if i & 0x04 == 0 then
                (if i & 2 == 0 then (if i & 1 == 0 then 0xD7 else 0x92) else (if i & 1 == 0 then 0x55 else 0xAA))
              else
                (if i & 2 == 0 then (if i & 1 == 0 then 0x43 else 0x0B) else (if i & 1 == 0 then 0x25 else 0xAF))))
          else
            (if i & 0x08 == 0 then
              (if i & 0x04 == 0 then
                (if i & 2 == 0 then (if i & 1 == 0 then 0xC0 else 0x73) else (if i & 1 == 0 then 0x99 else 0x77))
              else
                (if i & 2 == 0 then (if i & 1 == 0 then 0x96 else 0x5C) else (if i & 1 == 0 then 0xFA else 0x52)))
            else
              (if i & 0x04 == 0 then
                (if i & 2 == 0 then (if i & 1 == 0 then 0xE4 else 0xEC) else (if i & 1 == 0 then 0x5F else 0x4A))
              else
                (if i & 2 == 0 then (if i & 1 == 0 then 0xB6 else 0xA2) else (if i & 1 == 0 then 0x16 else 0x86))))))
      else
        (if i & 0x20 == 0 then
          (if i & 0x10 == 0 then
            (if i & 0x08 == 0 then
              (if i & 0x04 == 0 then
                (if i & 2 == 0 then (if i & 1 == 0 then 0x69 else 0xC5) else (if i & 1 == 0 then 0x62 else 0xFE))
              else
                (if i & 2 == 0 then (if i & 1 == 0 then 0x29 else 0x7D) else (if i & 1 == 0 then 0xBB else 0xCC)))
            else
              (if i & 0x04 == 0 then
                (if i & 2 == 0 then (if i & 1 == 0 then 0xE0 else 0xD3) else (if i & 1 == 0 then 0x4D else 0x8C))
              else
                (if i & 2 == 0 then (if i & 1 == 0 then 0xF2 else 0x1F) else (if i & 1 == 0 then 0x30 else 0xDC))))
          else
            (if i & 0x08 == 0 then
              (if i & 0x04 == 0 then
                (if i & 2 == 0 then (if i & 1 == 0 then 0x82 else 0xAB) else (if i & 1 == 0 then 0xE7 else 0x56))
              else
                (if i & 2 == 0 then (if i & 1 == 0 then 0xB3 else 0x93) else (if i & 1 == 0 then 0x40 else 0xD8)))
            else
              (if i & 0x04 == 0 then
                (if i & 2 == 0 then (if i & 1 == 0 then 0x34 else 0xB0) else (if i & 1 == 0 then 0xEF else 0x26))
              else
                (if i & 2 == 0 then (if i & 1 == 0 then 0x37 else 0x0C) else (if i & 1 == 0 then 0x11 else 0x44)))))
        else
          (if i & 0x10 == 0 then
            (if i & 0x08 == 0 then
              (if i & 0x04 == 0 then
                (if i & 2 == 0 then (if i & 1 == 0 then 0x6F else 0x78) else (if i & 1 == 0 then 0x19 else 0x9A))
              else
                (if i & 2 == 0 then (if i & 1 == 0 then 0x47 else 0x74) else (if i & 1 == 0 then 0xA7 else 0xC1)))
            else
              (if i & 0x04 == 0 then
                (if i & 2 == 0 then (if i & 1 == 0 then 0x23 else 0x53) else (if i & 1 == 0 then 0x89 else 0xFB))
              else
                (if i & 2 == 0 then (if i & 1 == 0 then 0x14 else 0x5D) else (if i & 1 == 0 then 0xF8 else 0x97))))
          else
            (if i & 0x08 == 0 then
              (if i & 0x04 == 0 then
                (if i & 2 == 0 then (if i & 1 == 0 then 0x2E else 0x4B) else (if i & 1 == 0 then 0xB9 else 0x60))
              else
                (if i & 2 == 0 then (if i & 1 == 0 then 0x0F else 0xED) else (if i & 1 == 0 then 0x3E else 0xE5)))
            else
              (if i & 0x04 == 0 then
                (if i & 2 == 0 then (if i & 1 == 0 then 0xF6 else 0x87) else (if i & 1 == 0 then 0xA5 else 0x17))
              else
                (if i & 2 == 0 then (if i & 1 == 0 then 0x3A else 0xA3) else (if i & 1 == 0 then 0x3C else 0xB7)))))))
  }

  /** The logarithm of a non-zero element, as a number. */
  function Log(a: bv8): int { IndexOf(a) as int }

  /** The element that a value in index form stands for. */
  function FromIndex(i: bv8): bv8 { if i == A0 then 0 else AlphaTo(i) }

  /** The multiplicative inverse of a non-zero element. */
  function Inv(a: bv8): bv8
    requires a != 0
  {
    LogRange(a);
    Pow(255 - Log(a))
  }

  // ---------------------------------------------------------------- addition

  lemma AddComm(a: bv8, b: bv8)
    ensures Add(a, b) == Add(b, a)
  {}

  lemma AddAssoc(a: bv8, b: bv8, c: bv8)
    ensures Add(Add(a, b), c) == Add(a, Add(b, c))
  {}

  lemma AddZero(a: bv8)
    ensures Add(a, 0) == a && Add(0, a) == a
  {}

  lemma AddSelf(a: bv8)
    ensures Add(a, a) == 0
  {}

  /** Every element is its own opposite. */
  lemma AddCancel(a: bv8, b: bv8)
    ensures Add(a, Add(a, b)) == b && Add(Add(a, b), b) == a
    ensures Add(a, b) == 0 ==> a == b
  {}

  lemma AddSwap(a: bv8, b: bv8, c: bv8, d: bv8)
    ensures Add(Add(a, b), Add(c, d)) == Add(Add(a, c), Add(b, d))
  {
    hide Add;
    AddAssoc(a, b, Add(c, d));
    AddAssoc(b, c, d);
    AddComm(b, c);
    AddAssoc(c, b, d);
    AddAssoc(a, c, Add(b, d));
  }

  // ---------------------------------------------------------------- multiplication is linear on the left

  lemma XtimeAdd(a: bv8, b: bv8)
    ensures Xtime(Add(a, b)) == Add(Xtime(a), Xtime(b))
    ensures Xtime(0) == 0
  {}

  lemma GateAdd(c: bv8, a: bv8, b: bv8)
    ensures Gate(c, Add(a, b)) == Add(Gate(c, a), Gate(c, b))
    ensures Gate(c, Xtime(a)) == Xtime(Gate(c, a))
  {}

  lemma {:induction false} MulAddLeft(a: bv8, b: bv8, c: bv8)
    ensures Mul(Add(a, b), c) == Add(Mul(a, c), Mul(b, c))
    decreases c
  {
    hide Add, Xtime, Gate;
    if c == 0 {
      AddZero(0);
    } else {
      XtimeAdd(a, b);
      GateAdd(c, a, b);
      MulAddLeft(Xtime(a), Xtime(b), c >> 1);
      AddSwap(Gate(c, a), Gate(c, b), Mul(Xtime(a), c >> 1), Mul(Xtime(b), c >> 1));
    }
  }

  lemma {:induction false} MulXtimeLeft(a: bv8, c: bv8)
    ensures Mul(Xtime(a), c) == Xtime(Mul(a, c))
    decreases c
  {
    hide Add, Xtime, Gate;
    XtimeAdd(0, 0);
    if c != 0 {
      MulXtimeLeft(Xtime(a), c >> 1);
      GateAdd(c, a, a);
      XtimeAdd(Gate(c, a), Mul(Xtime(a), c >> 1));
    }
  }

  lemma {:induction false} MulZeroLeft(c: bv8)
    ensures Mul(0, c) == 0 && Mul(c, 0) == 0
    decreases c
  {
    if c != 0 { MulZeroLeft(c >> 1); }
  }

  /** x^n * c is c shifted, as long as no bit is lost. */
  lemma {:induction false} MulByBit(n: bv8, c: bv8)
    requires n < 8
    ensures Mul(1 << n, c >> n) == (c >> n) << n
    decreases 8 - n
  {
    if n < 7 { MulByBit(n + 1, c); }
  }

  lemma MulOne(c: bv8)
    ensures Mul(1, c) == c
  {
    MulByBit(0, c);
  }

  // ---------------------------------------------------------------- the tables are powers of x

  lemma AlphaStep(i: bv8)
    requires i < 254
    ensures AlphaTo(i + 1) == Xtime(AlphaTo(i))
  {}

  lemma AlphaWraps()
    ensures AlphaTo(0) == 1 && Xtime(AlphaTo(254)) == 1
  {}

  lemma AlphaOfIndex(a: bv8)
    requires a != 0
    ensures IndexOf(a) != A0 && AlphaTo(IndexOf(a)) == a
  {}

  lemma IndexOfAlpha(i: bv8)
    requires i != A0
    ensures AlphaTo(i) != 0 && IndexOf(AlphaTo(i)) == i
  {}

  /** The two tables are inverse to each other, and A0 stands for zero and nothing else. */
  lemma TablesInverse(a: bv8)
    ensures FromIndex(IndexOf(a)) == a
    ensures IndexOf(FromIndex(a)) == a
    ensures IndexOf(a) == A0 <==> a == 0
    ensures FromIndex(a) == 0 <==> a == A0
  {
    assert IndexOf(0) == A0;
    hide IndexOf, AlphaTo;
    if a != 0 { AlphaOfIndex(a); }
    if a != A0 { IndexOfAlpha(a); }
  }

  lemma LogRange(a: bv8)
    ensures 0 <= Log(a) <= 255
    ensures a != 0 <==> Log(a) < 255
  {
    hide IndexOf, AlphaTo;
    TablesInverse(a);
  }

  /** A number below 256 as a byte. */
  function ByteOf(i: int): bv8
    requires 0 <= i < 256
  {
    i as bv8
  }

  lemma ByteOfByte(a: bv8)
    ensures ByteOf(a as int) == a
  {}

  lemma {:induction false} ByteWithValue(i: int) returns (a: bv8)
    requires 0 <= i < 256
    ensures a as int == i
  {
    if i == 0 {
      a := 0;
    } else {
      a := ByteWithValue(i - 1);
      a := a + 1;
    }
  }

  lemma ByteOfInt(i: int)
    requires 0 <= i < 256
    ensures ByteOf(i) as int == i
  {
    hide ByteOf;
    var a := ByteWithValue(i);
    ByteOfByte(a);
  }

  lemma ByteSucc(i: int)
    requires 0 <= i < 255
    ensures ByteOf(i) < 255 && ByteOf(i + 1) == ByteOf(i) + 1
  {
    hide ByteOf;
    ByteOfInt(i);
    ByteOfInt(i + 1);
  }

  lemma {:induction false} AlphaIsPow(i: nat)
    requires i < 255
    ensures AlphaTo(ByteOf(i)) == Pow(i)
  {
    assert ByteOf(0) == 0;
    hide AlphaTo, Xtime, ByteOf;
    if i == 0 {
      AlphaWraps();
    } else {
      AlphaIsPow(i - 1);
      ByteSucc(i - 1);
      ByteOfInt(i - 1);
      AlphaStep(ByteOf(i - 1));
    }
  }

  lemma {:induction false} PowPeriod(n: nat)
    ensures Pow(n + 255) == Pow(n)
  {
    hide AlphaTo, Xtime, ByteOf;
    if n == 0 {
      AlphaIsPow(254);
      AlphaWraps();
      ByteOfByte(254);
    } else {
      PowPeriod(n - 1);
    }
  }

  lemma {:induction false} PowMod(n: nat)
    ensures Pow(n) == Pow(n % 255)
  {
    hide Pow;
    if n >= 255 {
      PowPeriod(n - 255);
      PowMod(n - 255);
    }
  }

  /** What a lookup `ALPHA_TO[mod255(n)]` yields. */
  lemma AlphaMod(n: nat)
    ensures AlphaTo(ByteOf(n % 255)) == Pow(n)
  {
    AlphaIsPow(n % 255);
    PowMod(n);
  }

  lemma PowLog(a: bv8)
    requires a != 0
    ensures 0 <= Log(a) < 255 && Pow(Log(a)) == a
  {
    hide IndexOf, AlphaTo, Pow, ByteOf;
    LogRange(a);
    AlphaIsPow(Log(a));
    AlphaOfIndex(a);
    ByteOfByte(IndexOf(a));
  }

  lemma LogPow(n: nat)
    ensures Pow(n) != 0 && Log(Pow(n)) == n % 255
  {
    hide IndexOf, AlphaTo, Pow, ByteOf;
    AlphaMod(n);
    ByteOfInt(n % 255);
    IndexOfAlpha(ByteOf(n % 255));
  }

  // ---------------------------------------------------------------- the field laws

  lemma {:induction false} PowAdd(i: nat, j: nat)
    ensures Mul(Pow(i), Pow(j)) == Pow(i + j)
  {
    hide Mul, Xtime;
    if i == 0 {
      MulOne(Pow(j));
    } else {
      PowAdd(i - 1, j);
      MulXtimeLeft(Pow(i - 1), Pow(j));
    }
  }

  lemma MulComm(a: bv8, b: bv8)
    ensures Mul(a, b) == Mul(b, a)
  {
    hide Mul, Pow, Log;
    if a == 0 {
      MulZeroLeft(b);
    } else if b == 0 {
      MulZeroLeft(a);
    } else {
      PowLog(a);
      PowLog(b);
      PowAdd(Log(a), Log(b));
      PowAdd(Log(b), Log(a));
    }
  }

  lemma PowAssoc(i: nat, j: nat, k: nat)
    ensures Mul(Mul(Pow(i), Pow(j)), Pow(k)) == Mul(Pow(i), Mul(Pow(j), Pow(k)))
  {
    hide Mul, Pow;
    PowAdd(i, j);
    PowAdd(i + j, k);
    PowAdd(j, k);
    PowAdd(i, j + k);
  }

  lemma MulAssoc(a: bv8, b: bv8, c: bv8)
    ensures Mul(Mul(a, b), c) == Mul(a, Mul(b, c))
  {
    hide Mul, Pow, Log;
    if a == 0 {
      MulZeroLeft(b);
      MulZeroLeft(c);
      MulZeroLeft(Mul(b, c));
    } else if b == 0 {
      MulZeroLeft(a);
      MulZeroLeft(c);
    } else if c == 0 {
      MulZeroLeft(Mul(a, b));
      MulZeroLeft(b);
      MulZeroLeft(a);
    } else {
      PowLog(a);
      PowLog(b);
      PowLog(c);
      PowAssoc(Log(a), Log(b), Log(c));
    }
  }

  lemma MulAddRight(a: bv8, b: bv8, c: bv8)
    ensures Mul(a, Add(b, c)) == Add(Mul(a, b), Mul(a, c))
  {
    hide Mul, Add;
    MulComm(a, Add(b, c));
    MulComm(a, b);
    MulComm(a, c);
    MulAddLeft(b, c, a);
  }

  lemma MulUnit(a: bv8)
    ensures Mul(a, 1) == a && Mul(1, a) == a
    ensures Mul(a, 0) == 0 && Mul(0, a) == 0
  {
    hide Mul;
    MulOne(a);
    MulComm(1, a);
    MulZeroLeft(a);
  }

  /** The field has no zero divisors. */
  lemma MulNonZero(a: bv8, b: bv8)
    ensures Mul(a, b) == 0 <==> a == 0 || b == 0
  {
    hide Mul, Pow, Log;
    MulZeroLeft(a);
    MulZeroLeft(b);
    if a != 0 && b != 0 {
      PowLog(a);
      PowLog(b);
      PowAdd(Log(a), Log(b));
      LogPow(Log(a) + Log(b));
    }
  }

  /** Every non-zero element is invertible. */
  lemma MulInv(a: bv8)
    requires a != 0
    ensures Inv(a) != 0 && Mul(a, Inv(a)) == 1 && Mul(Inv(a), a) == 1
  {
    hide Mul, Pow, Log;
    PowLog(a);
    PowAdd(Log(a), 255 - Log(a));
    LogPow(255 - Log(a));
    MulComm(a, Inv(a));
    assert Pow(255) == 1 by { PowPeriod(0); PowZero(); }
  }

  lemma PowZero()
    ensures Pow(0) == 1
  {}

  lemma MulCancel(a: bv8, b: bv8, c: bv8)
    requires a != 0
    requires Mul(a, b) == Mul(a, c)
    ensures b == c
  {
    hide Mul, Inv;
    MulInv(a);
    MulAssoc(Inv(a), a, b);
    MulAssoc(Inv(a), a, c);
    MulUnit(b);
    MulUnit(c);
  }

  // ---------------------------------------------------------------- what the codec computes with the tables

  /** Adding two logarithms modulo 255 multiplies. */
  lemma TableProduct(a: bv8, b: bv8)
    requires a != 0 && b != 0
    ensures 0 <= Log(a) < 255 && 0 <= Log(b) < 255
    ensures AlphaTo(ByteOf((Log(a) + Log(b)) % 255)) == Mul(a, b)
  {
    hide Mul, Pow, AlphaTo, ByteOf, Log;
    PowLog(a);
    PowLog(b);
    AlphaMod(Log(a) + Log(b));
    PowAdd(Log(a), Log(b));
  }

  /** Subtracting logarithms, kept positive by adding 255, divides. */
  lemma TableQuotient(a: bv8, b: bv8)
    requires a != 0 && b != 0
    ensures 0 <= Log(a) < 255 && 0 <= Log(b) < 255
    ensures AlphaTo(ByteOf((Log(a) - Log(b) + 255) % 255)) == Mul(a, Inv(b))
  {
    hide Mul, Pow, AlphaTo, ByteOf, Log;
    PowLog(a);
    PowLog(b);
    AlphaMod(Log(a) - Log(b) + 255);
    PowAdd(Log(a), 255 - Log(b));
  }

  // ---------------------------------------------------------------- powers

  lemma {:induction false} PowerOfPow(x: nat, n: nat)
    ensures Power(Pow(x), n) == Pow(x * n)
  {
    hide Mul;
    if n != 0 {
      hide Pow;
      PowerOfPow(x, n - 1);
      PowAdd(x, x * (n - 1));
      assert x + x * (n - 1) == x * n;
    }
  }

  lemma {:induction false} PowerAdd(a: bv8, m: nat, n: nat)
    ensures Power(a, m + n) == Mul(Power(a, m), Power(a, n))
  {
    hide Mul;
    if m == 0 {
      MulUnit(Power(a, n));
    } else {
      PowerAdd(a, m - 1, n);
      MulAssoc(a, Power(a, m - 1), Power(a, n));
    }
  }

  lemma {:induction false} PowerNonZero(a: bv8, n: nat)
    requires a != 0
    ensures Power(a, n) != 0
  {
    hide Mul;
    if n != 0 {
      PowerNonZero(a, n - 1);
      MulNonZero(a, Power(a, n - 1));
    }
  }

  // ---------------------------------------------------------------- mod255

  /** `mod255`: reduction modulo 255 by adding the high bits to the low eight. */
  method Mod255(x0: int) returns (x: int)
    ensures x0 >= 0 ==> x == x0 % 255
    ensures x0 < 0 ==> x == x0
  {
    x := x0;
    while x >= 255
      invariant x0 >= 0 ==> x >= 0 && x % 255 == x0 % 255
      invariant x0 < 0 ==> x == x0
    {
      x := x - 255;
      Mod255Fold(x);
      x := x / 256 + x % 256;
    }
  }

  lemma Mod255Fold(x: int)
    requires x >= 0
    ensures (x / 256 + x % 256) % 255 == x % 255 == (x + 255) % 255
    ensures 0 <= x / 256 + x % 256 <= x
  {
    var q, m := x / 256, x % 256;
    assert x == q + m + 255 * q;
    ModMultiple(q + m, q);
  }

  lemma {:induction false} ModMultiple(a: nat, q: nat)
    ensures (a + 255 * q) % 255 == a % 255
  {
    if q > 0 {
      ModMultiple(a, q - 1);
      assert a + 255 * q == (a + 255 * (q - 1)) + 255;
    }
  }
}
