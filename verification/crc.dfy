/**
 CRC-CCITT as the radio layer computes it, one table lookup a byte (`usCrcCcittUpdate`),
 against its definition, one shift a bit (reflected polynomial 0x8408).  What the AX.25 and
 TNC layers rely on follows: no error confined to two consecutive bytes goes unnoticed, and
 a message followed by its complemented CRC always leaves the same residue.
 */
module Crc {

  /** `CRC_CCITT_INIT_VAL`. */
  const INIT: bv16 := 0xFFFF

  /** `AX25_CRC_CORRECT`: the CRC of a message with its own check bytes. */
  const RESIDUE: bv16 := 0xF0B8

  /** `usCrcCcittTab`: the entries stand in order of their index, found bit by bit. */
  function CrcTab(i: bv8): bv16 {
    if i & 0x80 == 0 then
      (if i & 0x40 == 0 then
        (if i & 0x20 == 0 then
          (if i & 0x10 == 0 then
            (if i & 0x08 == 0 then
              (if i & 0x04 == 0 then
                (if i & 2 == 0 then (if i & 1 == 0 then 0x0000 else 0x1189) else (if i & 1 == 0 then 0x2312 else 0x329B))
              else
                (if i & 2 == 0 then (if i & 1 == 0 then 0x4624 else 0x57AD) else (if i & 1 == 0 then 0x6536 else 0x74BF)))
            else
              (if i & 0x04 == 0 then
                (if i & 2 == 0 then (if i & 1 == 0 then 0x8C48 else 0x9DC1) else (if i & 1 == 0 then 0xAF5A else 0xBED3))
              else
                (if i & 2 == 0 then (if i & 1 == 0 then 0xCA6C else 0xDBE5) else (if i & 1 == 0 then 0xE97E else 0xF8F7))))
          else
            (if i & 0x08 == 0 then
              (if i & 0x04 == 0 then
                (if i & 2 == 0 then (if i & 1 == 0 then 0x1081 else 0x0108) else (if i & 1 == 0 then 0x3393 else 0x221A))
              else
                (if i & 2 == 0 then (if i & 1 == 0 then 0x56A5 else 0x472C) else (if i & 1 == 0 then 0x75B7 else 0x643E)))
            else
              (if i & 0x04 == 0 then
                (if i & 2 == 0 then (if i & 1 == 0 then 0x9CC9 else 0x8D40) else (if i & 1 == 0 then 0xBFDB else 0xAE52))
              else
                (if i & 2 == 0 then (if i & 1 == 0 then 0xDAED else 0xCB64) else (if i & 1 == 0 then 0xF9FF else 0xE876)))))
        else
          (if i & 0x10 == 0 then
            (if i & 0x08 == 0 then
              (if i & 0x04 == 0 then
                (if i & 2 == 0 then (if i & 1 == 0 then 0x2102 else 0x308B) else (if i & 1 == 0 then 0x0210 else 0x1399))
              else
                (if i & 2 == 0 then (if i & 1 == 0 then 0x6726 else 0x76AF) else (if i & 1 == 0 then 0x4434 else 0x55BD)))
            else
              (if i & 0x04 == 0 then
                (if i & 2 == 0 then (if i & 1 == 0 then 0xAD4A else 0xBCC3) else (if i & 1 == 0 then 0x8E58 else 0x9FD1))
              else
                (if i & 2 == 0 then (if i & 1 == 0 then 0xEB6E else 0xFAE7) else (if i & 1 == 0 then 0xC87C else 0xD9F5))))
          else
            (if i & 0x08 == 0 then
              (if i & 0x04 == 0 then
                (if i & 2 == 0 then (if i & 1 == 0 then 0x3183 else 0x200A) else (if i & 1 == 0 then 0x1291 else 0x0318))
              else
                (if i & 2 == 0 then (if i & 1 == 0 then 0x77A7 else 0x662E) else (if i & 1 == 0 then 0x54B5 else 0x453C)))
            else
              (if i & 0x04 == 0 then
                (if i & 2 == 0 then (if i & 1 == 0 then 0xBDCB else 0xAC42) else (if i & 1 == 0 then 0x9ED9 else 0x8F50))
              else
                (if i & 2 == 0 then (if i & 1 == 0 then 0xFBEF else 0xEA66) else (if i & 1 == 0 then 0xD8FD else 0xC974))))))
      else
        (if i & 0x20 == 0 then
          (if i & 0x10 == 0 then
            (if i & 0x08 == 0 then
              (if i & 0x04 == 0 then
                (if i & 2 == 0 then (if i & 1 == 0 then 0x4204 else 0x538D) else (if i & 1 == 0 then 0x6116 else 0x709F))
              else
                (if i & 2 == 0 then (if i & 1 == 0 then 0x0420 else 0x15A9) else (if i & 1 == 0 then 0x2732 else 0x36BB)))
            else
              (if i & 0x04 == 0 then
                (if i & 2 == 0 then (if i & 1 == 0 then 0xCE4C else 0xDFC5) else (if i & 1 == 0 then 0xED5E else 0xFCD7))
              else
                (if i & 2 == 0 then (if i & 1 == 0 then 0x8868 else 0x99E1) else (if i & 1 == 0 then 0xAB7A else 0xBAF3))))
          else
            (if i & 0x08 == 0 then
              (if i & 0x04 == 0 then
                (if i & 2 == 0 then (if i & 1 == 0 then 0x5285 else 0x430C) else (if i & 1 == 0 then 0x7197 else 0x601E))
              else
                (if i & 2 == 0 then (if i & 1 == 0 then 0x14A1 else 0x0528) else (if i & 1 == 0 then 0x37B3 else 0x263A)))
            else
              (if i & 0x04 == 0 then
                (if i & 2 == 0 then (if i & 1 == 0 then 0xDECD else 0xCF44) else (if i & 1 == 0 then 0xFDDF else 0xEC56))
              else
                (if i & 2 == 0 then (if i & 1 == 0 then 0x98E9 else 0x8960) else (if i & 1 == 0 then 0xBBFB else 0xAA72)))))
        else
          (if i & 0x10 == 0 then
            (if i & 0x08 == 0 then
              (if i & 0x04 == 0 then
                (if i & 2 == 0 then (if i & 1 == 0 then 0x6306 else 0x728F) else (if i & 1 == 0 then 0x4014 else 0x519D))
              else
                (if i & 2 == 0 then (if i & 1 == 0 then 0x2522 else 0x34AB) else (if i & 1 == 0 then 0x0630 else 0x17B9)))
            else
              (if i & 0x04 == 0 then
                (if i & 2 == 0 then (if i & 1 == 0 then 0xEF4E else 0xFEC7) else (if i & 1 == 0 then 0xCC5C else 0xDDD5))
              else
                (if i & 2 == 0 then (if i & 1 == 0 then 0xA96A else 0xB8E3) else (if i & 1 == 0 then 0x8A78 else 0x9BF1))))
          else
            (if i & 0x08 == 0 then
              (if i & 0x04 == 0 then
                (if i & 2 == 0 then (if i & 1 == 0 then 0x7387 else 0x620E) else (if i & 1 == 0 then 0x5095 else 0x411C))
              else
                (if i & 2 == 0 then (if i & 1 == 0 then 0x35A3 else 0x242A) else (if i & 1 == 0 then 0x16B1 else 0x0738)))
            else
              (if i & 0x04 == 0 then
                (if i & 2 == 0 then (if i & 1 == 0 then 0xFFCF else 0xEE46) else (if i & 1 == 0 then 0xDCDD else 0xCD54))
              else
                (if i & 2 == 0 then (if i & 1 == 0 then 0xB9EB else 0xA862) else (if i & 1 == 0 then 0x9AF9 else 0x8B70)))))))
    else
      (if i & 0x40 == 0 then
        (if i & 0x20 == 0 then
          (if i & 0x10 == 0 then
            (if i & 0x08 == 0 then
              (if i & 0x04 == 0 then
                (if i & 2 == 0 then (if i & 1 == 0 then 0x8408 else 0x9581) else (if i & 1 == 0 then 0xA71A else 0xB693))
              else
                (if i & 2 == 0 then (if i & 1 == 0 then 0xC22C else 0xD3A5) else (if i & 1 == 0 then 0xE13E else 0xF0B7)))
            else
              (if i & 0x04 == 0 then
                (if i & 2 == 0 then (if i & 1 == 0 then 0x0840 else 0x19C9) else (if i & 1 == 0 then 0x2B52 else 0x3ADB))
              else
                (if i & 2 == 0 then (if i & 1 == 0 then 0x4E64 else 0x5FED) else (if i & 1 == 0 then 0x6D76 else 0x7CFF))))
          else
            (if i & 0x08 == 0 then
              (if i & 0x04 == 0 then
                (if i & 2 == 0 then (if i & 1 == 0 then 0x9489 else 0x8500) else (if i & 1 == 0 then 0xB79B else 0xA612))
              else
                (if i & 2 == 0 then (if i & 1 == 0 then 0xD2AD else 0xC324) else (if i & 1 == 0 then 0xF1BF else 0xE036)))
            else
              (if i & 0x04 == 0 then
                (if i & 2 == 0 then (if i & 1 == 0 then 0x18C1 else 0x0948) else (if i & 1 == 0 then 0x3BD3 else 0x2A5A))
              else
                (if i & 2 == 0 then (if i & 1 == 0 then 0x5EE5 else 0x4F6C) else (if i & 1 == 0 then 0x7DF7 else 0x6C7E)))))
        else
          (if i & 0x10 == 0 then
            (if i & 0x08 == 0 then
              (if i & 0x04 == 0 then
                (if i & 2 == 0 then (if i & 1 == 0 then 0xA50A else 0xB483) else (if i & 1 == 0 then 0x8618 else 0x9791))
              else
                (if i & 2 == 0 then (if i & 1 == 0 then 0xE32E else 0xF2A7) else (if i & 1 == 0 then 0xC03C else 0xD1B5)))
            else
              (if i & 0x04 == 0 then
                (if i & 2 == 0 then (if i & 1 == 0 then 0x2942 else 0x38CB) else (if i & 1 == 0 then 0x0A50 else 0x1BD9))
              else
                (if i & 2 == 0 then (if i & 1 == 0 then 0x6F66 else 0x7EEF) else (if i & 1 == 0 then 0x4C74 else 0x5DFD))))
          else
            (if i & 0x08 == 0 then
              (if i & 0x04 == 0 then
                (if i & 2 == 0 then (if i & 1 == 0 then 0xB58B else 0xA402) else (if i & 1 == 0 then 0x9699 else 0x8710))
              else
                (if i & 2 == 0 then (if i & 1 == 0 then 0xF3AF else 0xE226) else (if i & 1 == 0 then 0xD0BD else 0xC134)))
            else
              (if i & 0x04 == 0 then
                (if i & 2 == 0 then (if i & 1 == 0 then 0x39C3 else 0x284A) else (if i & 1 == 0 then 0x1AD1 else 0x0B58))
              else
                (if i & 2 == 0 then (if i & 1 == 0 then 0x7FE7 else 0x6E6E) else (if i & 1 == 0 then 0x5CF5 else 0x4D7C))))))
      else
        (if i & 0x20 == 0 then
          (if i & 0x10 == 0 then
            (if i & 0x08 == 0 then
              (if i & 0x04 == 0 then
                (if i & 2 == 0 then (if i & 1 == 0 then 0xC60C else 0xD785) else (if i & 1 == 0 then 0xE51E else 0xF497))
              else
                (if i & 2 == 0 then (if i & 1 == 0 then 0x8028 else 0x91A1) else (if i & 1 == 0 then 0xA33A else 0xB2B3)))
            else
              (if i & 0x04 == 0 then
                (if i & 2 == 0 then (if i & 1 == 0 then 0x4A44 else 0x5BCD) else (if i & 1 == 0 then 0x6956 else 0x78DF))
              else
                (if i & 2 == 0 then (if i & 1 == 0 then 0x0C60 else 0x1DE9) else (if i & 1 == 0 then 0x2F72 else 0x3EFB))))
          else
            (if i & 0x08 == 0 then
              (if i & 0x04 == 0 then
                (if i & 2 == 0 then (if i & 1 == 0 then 0xD68D else 0xC704) else (if i & 1 == 0 then 0xF59F else 0xE416))
              else
                (if i & 2 == 0 then (if i & 1 == 0 then 0x90A9 else 0x8120) else (if i & 1 == 0 then 0xB3BB else 0xA232)))
            else
              (if i & 0x04 == 0 then
                (if i & 2 == 0 then (if i & 1 == 0 then 0x5AC5 else 0x4B4C) else (if i & 1 == 0 then 0x79D7 else 0x685E))
              else
                (if i & 2 == 0 then (if i & 1 == 0 then 0x1CE1 else 0x0D68) else (if i & 1 == 0 then 0x3FF3 else 0x2E7A)))))
        else
          (if i & 0x10 == 0 then
            (if i & 0x08 == 0 then
              (if i & 0x04 == 0 then
                (if i & 2 == 0 then (if i & 1 == 0 then 0xE70E else 0xF687) else (if i & 1 == 0 then 0xC41C else 0xD595))
              else
                (if i & 2 == 0 then (if i & 1 == 0 then 0xA12A else 0xB0A3) else (if i & 1 == 0 then 0x8238 else 0x93B1)))
            else
              (if i & 0x04 == 0 then
                (if i & 2 == 0 then (if i & 1 == 0 then 0x6B46 else 0x7ACF) else (if i & 1 == 0 then 0x4854 else 0x59DD))
              else
                (if i & 2 == 0 then (if i & 1 == 0 then 0x2D62 else 0x3CEB) else (if i & 1 == 0 then 0x0E70 else 0x1FF9))))
          else
            (if i & 0x08 == 0 then
              (if i & 0x04 == 0 then
                (if i & 2 == 0 then (if i & 1 == 0 then 0xF78F else 0xE606) else (if i & 1 == 0 then 0xD49D else 0xC514))
              else
                (if i & 2 == 0 then (if i & 1 == 0 then 0xB1AB else 0xA022) else (if i & 1 == 0 then 0x92B9 else 0x8330)))
            else
              (if i & 0x04 == 0 then
                (if i & 2 == 0 then (if i & 1 == 0 then 0x7BC7 else 0x6A4E) else (if i & 1 == 0 then 0x58D5 else 0x495C))
              else
                (if i & 2 == 0 then (if i & 1 == 0 then 0x3DE3 else 0x2C6A) else (if i & 1 == 0 then 0x1EF1 else 0x0F78)))))))
  }

  /** `usCrcCcittUpdate`. */
  function Update(c: bv8, crc: bv16): bv16 {
    (crc >> 8) ^ CrcTab((Enter(crc, c) & 0xFF) as bv8)
  }

  /** A byte entering the state. */
  function Enter(crc: bv16, c: bv8): bv16 { crc ^ (c as bv16) }

  /** The CRC of a message, from a given state. */
  function CrcOf(crc: bv16, s: seq<bv8>): bv16 {
    if s == [] then crc else Update(s[|s| - 1], CrcOf(crc, s[..|s| - 1]))
  }

  /** `usCrcCcitt`. */
  method CrcCcitt(crc0: bv16, buf: seq<bv8>) returns (crc: bv16)
    ensures crc == CrcOf(crc0, buf)
  {
    hide Update;
    crc := crc0;
    for i := 0 to |buf|
      invariant crc == CrcOf(crc0, buf[..i])
    {
      assert buf[..i + 1][..i] == buf[..i];
      crc := Update(buf[i], crc);
    }
    assert buf[..|buf|] == buf;
  }

  // ---------------------------------------------------------------- the definition, bit by bit

  /** One bit of the division by the reflected polynomial. */
  function BitStep(r: bv16): bv16 { (r >> 1) ^ ((r & 1) * 0x8408) }

  /** The eight bit steps of one byte. */
  function ByteSteps(r: bv16): bv16 {
    BitStep(BitStep(BitStep(BitStep(BitStep(BitStep(BitStep(BitStep(r))))))))
  }

  /** The bit step undone: the bit that was shifted out shows as the top bit. */
  function BitUnstep(r: bv16): bv16 { ((r ^ ((r >> 15) * 0x8408)) << 1) | (r >> 15) }

  lemma BitStepUndone(r: bv16)
    ensures BitUnstep(BitStep(r)) == r
  {}

  lemma BitStepInjective(a: bv16, b: bv16)
    requires BitStep(a) == BitStep(b)
    ensures a == b
  {
    hide BitStep, BitUnstep;
    BitStepUndone(a);
    BitStepUndone(b);
  }

  lemma TableIsByteSteps(i: bv8)
    ensures CrcTab(i) == ByteSteps(i as bv16)
  {}

  /** Two bytes entering the state, the first one low. */
  function EnterTwo(crc: bv16, lo: bv8, hi: bv8): bv16 { crc ^ (lo as bv16) ^ ((hi as bv16) << 8) }

  lemma EnterKeepsHigh(c: bv8, crc: bv16)
    ensures Enter(crc, c) >> 8 == crc >> 8
  {}

  lemma TableOfLow(r: bv16)
    ensures (r >> 8) ^ CrcTab((r & 0xFF) as bv8) == ByteSteps(r)
  {}

  /** The table-driven update is eight bit steps of the state with the byte added, for every state and byte. */
  lemma UpdateIsByteSteps(c: bv8, crc: bv16)
    ensures Update(c, crc) == ByteSteps(Enter(crc, c))
  {
    hide ByteSteps, Enter, CrcTab;
    EnterKeepsHigh(c, crc);
    TableOfLow(Enter(crc, c));
  }

  lemma ByteStepsInjective(a: bv16, b: bv16)
    requires ByteSteps(a) == ByteSteps(b)
    ensures a == b
  {
    hide BitStep;
    var a1, b1 := BitStep(a), BitStep(b);
    var a2, b2 := BitStep(a1), BitStep(b1);
    var a3, b3 := BitStep(a2), BitStep(b2);
    var a4, b4 := BitStep(a3), BitStep(b3);
    var a5, b5 := BitStep(a4), BitStep(b4);
    var a6, b6 := BitStep(a5), BitStep(b5);
    var a7, b7 := BitStep(a6), BitStep(b6);
    BitStepInjective(a7, b7);
    BitStepInjective(a6, b6);
    BitStepInjective(a5, b5);
    BitStepInjective(a4, b4);
    BitStepInjective(a3, b3);
    BitStepInjective(a2, b2);
    BitStepInjective(a1, b1);
    BitStepInjective(a, b);
  }

  lemma EnterSecond(lo: bv8, hi: bv8, crc: bv16)
    ensures Enter(ByteSteps(Enter(crc, lo)), hi) == ByteSteps(EnterTwo(crc, lo, hi))
  {}

  /** Two updates are sixteen bit steps of the state with both bytes added. */
  lemma TwoUpdates(lo: bv8, hi: bv8, crc: bv16)
    ensures Update(hi, Update(lo, crc)) == ByteSteps(ByteSteps(EnterTwo(crc, lo, hi)))
  {
    hide Update, ByteSteps, Enter, EnterTwo;
    UpdateIsByteSteps(lo, crc);
    UpdateIsByteSteps(hi, Update(lo, crc));
    EnterSecond(lo, hi, crc);
  }

  lemma EnterInjective(a: bv16, b: bv16, c: bv8, d: bv8)
    ensures Enter(a, c) == Enter(b, c) ==> a == b
    ensures Enter(a, c) == Enter(a, d) ==> c == d
  {}

  lemma EnterTwoInjective(crc: bv16, lo: bv8, hi: bv8, lo': bv8, hi': bv8)
    ensures EnterTwo(crc, lo, hi) == EnterTwo(crc, lo', hi') ==> lo == lo' && hi == hi'
  {}

  /** The update loses nothing: neither the state nor the byte. */
  lemma UpdateInjective(a: bv16, b: bv16, c: bv8, d: bv8)
    ensures Update(c, a) == Update(c, b) ==> a == b
    ensures Update(c, a) == Update(d, a) ==> c == d
  {
    hide Update, ByteSteps, Enter;
    UpdateIsByteSteps(c, a);
    UpdateIsByteSteps(c, b);
    UpdateIsByteSteps(d, a);
    EnterInjective(a, b, c, d);
    if Update(c, a) == Update(c, b) { ByteStepsInjective(Enter(a, c), Enter(b, c)); }
    if Update(c, a) == Update(d, a) { ByteStepsInjective(Enter(a, c), Enter(a, d)); }
  }

  // ---------------------------------------------------------------- concatenation

  lemma {:induction false} CrcConcat(crc: bv16, s: seq<bv8>, t: seq<bv8>)
    ensures CrcOf(crc, s + t) == CrcOf(CrcOf(crc, s), t)
  {
    hide Update;
    if t == [] {
      assert s + t == s;
    } else {
      var n := |t| - 1;
      assert (s + t)[..|s + t| - 1] == s + t[..n];
      CrcConcat(crc, s, t[..n]);
    }
  }

  lemma CrcAppend(crc: bv16, s: seq<bv8>, c: bv8)
    ensures CrcOf(crc, s + [c]) == Update(c, CrcOf(crc, s))
  {
    hide Update;
    assert (s + [c])[..|s|] == s;
  }

  lemma CrcTwo(crc: bv16, lo: bv8, hi: bv8)
    ensures CrcOf(crc, [lo, hi]) == Update(hi, Update(lo, crc))
  {
    hide Update;
    CrcAppend(crc, [lo], hi);
    CrcAppend(crc, [], lo);
    assert [] + [lo] == [lo];
    assert [lo] + [hi] == [lo, hi];
  }

  // ---------------------------------------------------------------- error detection

  lemma {:induction false} SameTail(a: bv16, b: bv16, s: seq<bv8>)
    requires a != b
    ensures CrcOf(a, s) != CrcOf(b, s)
  {
    hide Update;
    if s != [] {
      var n := |s| - 1;
      SameTail(a, b, s[..n]);
      UpdateInjective(CrcOf(a, s[..n]), CrcOf(b, s[..n]), s[n], s[n]);
    }
  }

  /** Any error confined to two consecutive bytes changes the CRC, in a message of any length. */
  lemma BurstDetected(crc: bv16, head: seq<bv8>, lo: bv8, hi: bv8, lo': bv8, hi': bv8, tail: seq<bv8>)
    requires lo != lo' || hi != hi'
    ensures CrcOf(crc, head + [lo, hi] + tail) != CrcOf(crc, head + [lo', hi'] + tail)
  {
    hide Update, ByteSteps, EnterTwo;
    var c := CrcOf(crc, head);
    CrcConcat(crc, head, [lo, hi]);
    CrcConcat(crc, head, [lo', hi']);
    CrcConcat(crc, head + [lo, hi], tail);
    CrcConcat(crc, head + [lo', hi'], tail);
    PairDetected(c, lo, hi, lo', hi');
    SameTail(CrcOf(c, [lo, hi]), CrcOf(c, [lo', hi']), tail);
  }

  lemma PairDetected(c: bv16, lo: bv8, hi: bv8, lo': bv8, hi': bv8)
    requires lo != lo' || hi != hi'
    ensures CrcOf(c, [lo, hi]) != CrcOf(c, [lo', hi'])
  {
    hide Update, ByteSteps, EnterTwo;
    CrcTwo(c, lo, hi);
    CrcTwo(c, lo', hi');
    TwoUpdates(lo, hi, c);
    TwoUpdates(lo', hi', c);
    var w, w' := EnterTwo(c, lo, hi), EnterTwo(c, lo', hi');
    EnterTwoInjective(c, lo, hi, lo', hi');
    if ByteSteps(ByteSteps(w)) == ByteSteps(ByteSteps(w')) {
      ByteStepsInjective(ByteSteps(w), ByteSteps(w'));
      ByteStepsInjective(w, w');
    }
  }

  /** Two messages of the same length that differ in exactly one byte have different CRCs. */
  lemma OneByteDetected(crc: bv16, s: seq<bv8>, p: nat, c: bv8)
    requires p < |s| && c != s[p]
    ensures CrcOf(crc, s[p := c]) != CrcOf(crc, s)
  {
    hide Update;
    var a, t := CrcOf(crc, s[..p]), s[p + 1..];
    assert s == s[..p] + [s[p]] + t && s[p := c] == s[..p] + [c] + t;
    CrcAppend(crc, s[..p], s[p]);
    CrcAppend(crc, s[..p], c);
    CrcConcat(crc, s[..p] + [s[p]], t);
    CrcConcat(crc, s[..p] + [c], t);
    UpdateInjective(a, a, c, s[p]);
    SameTail(Update(c, a), Update(s[p], a), t);
  }

  // ---------------------------------------------------------------- the residue

  /** The two check bytes: the complemented CRC, low byte first. */
  function CheckLow(crc: bv16): bv8 { ((crc & 0xFF) as bv8) ^ 0xFF }

  function CheckHigh(crc: bv16): bv8 { ((crc >> 8) as bv8) ^ 0xFF }

  lemma CheckBytes(crc: bv16)
    ensures EnterTwo(crc, CheckLow(crc), CheckHigh(crc)) == 0xFFFF
  {}

  lemma AllOnes()
    ensures ByteSteps(ByteSteps(0xFFFF)) == RESIDUE
  {}

  /** From every state, two bytes lead to the residue exactly when they are the state's check bytes. */
  lemma ResidueIff(crc: bv16, lo: bv8, hi: bv8)
    ensures CrcOf(crc, [lo, hi]) == RESIDUE <==> lo == CheckLow(crc) && hi == CheckHigh(crc)
  {
    hide Update, ByteSteps, CheckLow, CheckHigh, EnterTwo;
    var w := EnterTwo(crc, lo, hi);
    CrcTwo(crc, lo, hi);
    TwoUpdates(lo, hi, crc);
    CheckBytes(crc);
    EnterTwoInjective(crc, lo, hi, CheckLow(crc), CheckHigh(crc));
    AllOnes();
    if CrcOf(crc, [lo, hi]) == RESIDUE {
      ByteStepsInjective(ByteSteps(w), ByteSteps(0xFFFF));
      ByteStepsInjective(w, 0xFFFF);
    }
  }

  // ---------------------------------------------------------------- the check value

  lemma DigitUpdates()
    ensures Update(0x31, 0xFFFF) == 0x2F8D
    ensures Update(0x32, 0x2F8D) == 0x4D53
    ensures Update(0x33, 0x4D53) == 0x634B
    ensures Update(0x34, 0x634B) == 0x8B13
    ensures Update(0x35, 0x8B13) == 0x44BF
    ensures Update(0x36, 0x44BF) == 0x198D
    ensures Update(0x37, 0x198D) == 0x1AC8
    ensures Update(0x38, 0x1AC8) == 0xF795
    ensures Update(0x39, 0xF795) == 0x6F91
  {}

  lemma CrcBytes(s: seq<bv8>, n: nat, c: bv8, crc: bv16)
    requires n < |s| && s[n] == c && CrcOf(0xFFFF, s[..n]) == crc
    ensures CrcOf(0xFFFF, s[..n + 1]) == Update(c, crc)
  {
    hide Update;
    assert s[..n + 1] == s[..n] + [c];
    CrcAppend(0xFFFF, s[..n], c);
  }

  /** The check value of this CRC: the digits "123456789" leave 0x6F91, which complemented is 0x906E. */
  lemma CheckValue()
    ensures CrcOf(INIT, [0x31, 0x32, 0x33, 0x34, 0x35, 0x36, 0x37, 0x38, 0x39]) == 0x6F91
  {
    hide Update;
    var s: seq<bv8> := [0x31, 0x32, 0x33, 0x34, 0x35, 0x36, 0x37, 0x38, 0x39];
    DigitUpdates();
    assert s[..0] == [] && CrcOf(0xFFFF, []) == 0xFFFF;
    CrcBytes(s, 0, 0x31, 0xFFFF);
    CrcBytes(s, 1, 0x32, 0x2F8D);
    CrcBytes(s, 2, 0x33, 0x4D53);
    CrcBytes(s, 3, 0x34, 0x634B);
    CrcBytes(s, 4, 0x35, 0x8B13);
    CrcBytes(s, 5, 0x36, 0x44BF);
    CrcBytes(s, 6, 0x37, 0x198D);
    CrcBytes(s, 7, 0x38, 0x1AC8);
    CrcBytes(s, 8, 0x39, 0xF795);
    assert s[..9] == s;
  }
}
