/**
 The TNC framing described by its form: what a message looks like character by character, and that the
 reader's state says, at any point of any line, exactly which part of that form the line ends with.
 */
module TncForm {
  import opened Crc
  import opened Tnc

  // ---------------------------------------------------------------- what is written

  /** A digit as it is written: 0 to 9, A to F. */
  predicate Written(c: bv8) { 0x30 <= c <= 0x39 || 0x41 <= c <= 0x46 }

  /** What it stands for. */
  function Value(c: bv8): bv8 { if c <= 0x39 then c - 0x30 else c - 0x37 }

  /** Two characters are the digits of a byte. */
  predicate WritesByte(hi: bv8, lo: bv8, b: bv8) {
    Written(hi) && Written(lo) && (Value(hi) << 4) | Value(lo) == b
  }

  /** Four characters are the digits of a word. */
  predicate WritesWord(a: bv8, b: bv8, c: bv8, d: bv8, w: bv16) {
    && Written(a) && Written(b) && Written(c) && Written(d)
    && ((Value(a) as bv16) << 12) | ((Value(b) as bv16) << 8) | ((Value(c) as bv16) << 4) | (Value(d) as bv16) == w
  }

  lemma ByteWritten(b: bv8)
    ensures WritesByte(HexByte(b)[0], HexByte(b)[1], b)
  {}

  lemma DigitWritten(n: bv8)
    requires n < 16
    ensures Written(HexDigit(n)) && Value(HexDigit(n)) == n
  {}

  lemma NibblesOr(w: bv16)
    ensures Nibble(w, 12) < 16 && Nibble(w, 8) < 16 && Nibble(w, 4) < 16 && Nibble(w, 0) < 16
    ensures ((Nibble(w, 12) as bv16) << 12) | ((Nibble(w, 8) as bv16) << 8) | ((Nibble(w, 4) as bv16) << 4)
      | (Nibble(w, 0) as bv16) == w
  {}

  lemma WordWritten(w: bv16)
    ensures WritesWord(HexWord(w)[0], HexWord(w)[1], HexWord(w)[2], HexWord(w)[3], w)
  {
    hide Nibble, HexDigit, Written, Value;
    NibblesOr(w);
    DigitWritten(Nibble(w, 12));
    DigitWritten(Nibble(w, 8));
    DigitWritten(Nibble(w, 4));
    DigitWritten(Nibble(w, 0));
  }

  /** The text of a payload: two upper-case digits for each byte, high digit first. */
  lemma {:induction false} TextWritten(payload: seq<bv8>, i: nat)
    requires i < |payload|
    ensures WritesByte(HexText(payload)[2 * i], HexText(payload)[2 * i + 1], payload[i])
    decreases |payload|
  {
    hide WritesByte, HexByte;
    var n := |payload| - 1;
    if i < n {
      TextWritten(payload[..n], i);
    } else {
      ByteWritten(payload[n]);
    }
  }

  /** A message on the line: 1, 2, the payload's digits, 3, the four digits of their CRC from 0xFFFF, 4. */
  predicate Laid(w: seq<bv8>, payload: seq<bv8>) {
    var n := |payload|;
    && |w| == 2 * n + 8 && w[0] == 1 && w[1] == 2 && w[2 * n + 2] == 3 && w[2 * n + 7] == 4
    && (forall i :: 0 <= i < n ==> WritesByte(w[2 * i + 2], w[2 * i + 3], payload[i]))
    && WritesWord(w[2 * n + 3], w[2 * n + 4], w[2 * n + 5], w[2 * n + 6], CrcOf(0xFFFF, w[2..2 * n + 2]))
  }

  lemma WireLaid(payload: seq<bv8>)
    ensures Laid(Wire(payload), payload)
  {
    hide WritesByte, WritesWord, HexText, HexWord, CrcOf;
    var w, n, text := Wire(payload), |payload|, HexText(payload);
    assert w[2..2 * n + 2] == text;
    WordWritten(CrcOf(INIT, text));
    forall i | 0 <= i < n
      ensures WritesByte(w[2 * i + 2], w[2 * i + 3], payload[i])
    {
      TextWritten(payload, i);
    }
  }

  // ---------------------------------------------------------------- the forms a line can end with

  /** The line ends with 1. */
  ghost predicate EndsOpened(c: seq<bv8>) { c != [] && c[|c| - 1] == 1 }

  /** The line ends with 1, 2 and digits. */
  ghost predicate EndsText(c: seq<bv8>, text: seq<bv8>) {
    AllHex(text) && exists pre: seq<bv8> :: c == pre + [1, 2] + text
  }

  /** The line ends with 1, 2, digits, 3 and digits. */
  ghost predicate EndsField(c: seq<bv8>, text: seq<bv8>, field: seq<bv8>) {
    AllHex(text) && AllHex(field) && exists pre: seq<bv8> :: c == pre + [1, 2] + text + [3] + field
  }

  /** What the reader adds up from the digits of the CRC field, the first in the highest place. */
  function FieldSum(field: seq<bv8>): bv16
    requires |field| <= 4
    decreases |field|
  {
    if field == [] then 0
    else Plus(FieldSum(field[..|field| - 1]), Placed(field[|field| - 1], 16 - 4 * |field|))
  }

  /** The payload of the complete pairs of digits. */
  function Pairs(text: seq<bv8>): seq<bv8> { Bytes(text[..|text| - |text| % 2]) }

  /** The reader inside a text: what it holds of the digits so far. */
  ghost predicate InText(st: Reader, text: seq<bv8>) {
    && st.state == 2 && st.cnt % 2 == |text| % 2 && st.data == Pairs(text) && st.crcRx == CrcOf(0xFFFF, text)
    && (|text| % 2 == 1 ==> st.msb == High(text[|text| - 1]))
  }

  ghost predicate InField(st: Reader, text: seq<bv8>, field: seq<bv8>) {
    && st.state == 3 && |field| <= 4 && st.cnt == 4 * |field| && st.crcTx == FieldSum(field)
    && st.data == Pairs(text) && st.crcRx == CrcOf(0xFFFF, text)
  }

  lemma PairsSnoc(text: seq<bv8>, c: bv8)
    ensures |text| % 2 == 0 ==> Pairs(text + [c]) == Pairs(text)
    ensures |text| % 2 == 1 ==> Pairs(text + [c]) == Pairs(text) + [Join(High(text[|text| - 1]), c)]
  {
    hide Join, High, IsHexDigit;
    var t, n := text + [c], |text|;
    if n % 2 == 0 {
      assert t[..n] == text[..n];
    } else {
      assert t[..n + 1] == text[..n - 1] + [text[n - 1], c];
      BytesAppend(text[..n - 1], text[n - 1], c);
    }
  }

  lemma AllHexSnoc(text: seq<bv8>, c: bv8)
    requires AllHex(text) && IsHexDigit(c)
    ensures AllHex(text + [c])
  {
    hide IsHexDigit;
  }

  lemma IncOdd(n: Count, m: nat)
    requires n % 2 == m % 2
    ensures Inc(n) % 2 == (m + 1) % 2
  {}

  /** One more digit of the text. */
  lemma TextStep(st: Reader, text: seq<bv8>, c: bv8)
    requires InText(st, text) && IsHexDigit(c)
    ensures InText(Step(st, c), text + [c])
  {
    hide Update, High, Join, IsHexDigit, Pairs, CrcOf, Placed, Plus, Inc, Step;
    StepHex(st, c);
    PairsSnoc(text, c);
    CrcAppend(0xFFFF, text, c);
    IncOdd(st.cnt, |text|);
  }

  /** One more digit of the CRC field, if there is room for it. */
  lemma FieldStep(st: Reader, text: seq<bv8>, field: seq<bv8>, c: bv8)
    requires InField(st, text, field) && IsHexDigit(c)
    ensures |field| < 4 ==> InField(Step(st, c), text, field + [c])
    ensures |field| == 4 ==> Step(st, c) == st.(state := -4)
  {
    hide Update, High, Join, IsHexDigit, Pairs, CrcOf, Placed, Plus, Inc, Step;
    StepHex(st, c);
    assert (field + [c])[..|field|] == field;
  }

  // ---------------------------------------------------------------- the state is the form

  lemma TextOpens(st: Reader)
    requires st.state == 1 && st.crcRx == INIT && st.data == []
    ensures InText(Step(st, 2), [])
  {
    assert Pairs([]) == [] && CrcOf(0xFFFF, []) == 0xFFFF;
  }

  lemma FieldOpens(st: Reader, text: seq<bv8>)
    requires InText(st, text)
    ensures InField(Step(st, 3), text, [])
  {
    hide Update, Pairs, CrcOf;
  }

  /** The reader's state and what it holds, as a statement about the line so far, with the noise taken out. */
  ghost predicate Says(st: Reader, c: seq<bv8>) {
    && st.state in {0, 1, 2, 3, -4}
    && (st.state == 1 ==> EndsOpened(c) && st.crcRx == INIT && st.data == [])
    && (st.state == 2 ==> exists text :: EndsText(c, text) && InText(st, text))
    && (st.state == 3 ==> exists text, field :: EndsField(c, text, field) && InField(st, text, field))
    && (st.state == -4 ==> exists text, field :: EndsField(c, text, field) && |field| == 5)
  }

  lemma TextGrows(c: seq<bv8>, text: seq<bv8>, b: bv8)
    requires EndsText(c, text) && IsHexDigit(b)
    ensures EndsText(c + [b], text + [b])
  {
    AllHexSnoc(text, b);
    var pre: seq<bv8> :| c == pre + [1, 2] + text;
    assert c + [b] == pre + [1, 2] + (text + [b]);
  }

  lemma FieldGrows(c: seq<bv8>, text: seq<bv8>, field: seq<bv8>, b: bv8)
    requires EndsField(c, text, field) && IsHexDigit(b)
    ensures EndsField(c + [b], text, field + [b])
  {
    AllHexSnoc(field, b);
    var pre: seq<bv8> :| c == pre + [1, 2] + text + [3] + field;
    assert c + [b] == pre + [1, 2] + text + [3] + (field + [b]);
  }

  lemma OpenedGrows(c: seq<bv8>)
    requires EndsOpened(c)
    ensures EndsText(c + [2], [])
  {
    AllHexEmpty();
    assert c + [2] == c[..|c| - 1] + [1, 2] + [];
  }

  lemma TextCloses(c: seq<bv8>, text: seq<bv8>)
    requires EndsText(c, text)
    ensures EndsField(c + [3], text, [])
  {
    AllHexEmpty();
    var pre: seq<bv8> :| c == pre + [1, 2] + text;
    assert c + [3] == pre + [1, 2] + text + [3] + [];
  }

  /** One more byte that matters. */
  lemma SaysStep(st: Reader, c: seq<bv8>, b: bv8)
    requires Says(st, c) && Matters(b) && !Ends(st, b)
    ensures Says(Step(st, b), c + [b])
  {
    hide InText, InField, EndsText, EndsField, IsHexDigit, StepDigit, AllHex;
    if b == 2 {
      if st.state == 1 {
        TextOpens(st);
        OpenedGrows(c);
        assert Step(st, 2).state == 2;
      }
    } else if b == 3 {
      if st.state == 2 {
        var text :| EndsText(c, text) && InText(st, text);
        FieldOpens(st, text);
        TextCloses(c, text);
        assert Step(st, 3).state == 3;
      }
    } else if b != 1 && b != 4 {
      StepHex(st, b);
      SaysDigit(st, c, b);
    }
  }

  lemma SaysDigit(st: Reader, c: seq<bv8>, b: bv8)
    requires Says(st, c) && IsHexDigit(b)
    ensures Says(Step(st, b), c + [b])
  {
    hide InText, InField, EndsText, EndsField, IsHexDigit, AllHex, Update, High, Join, Placed, Plus, Inc, Step;
    StepHex(st, b);
    if st.state == 2 {
      var text :| EndsText(c, text) && InText(st, text);
      TextStep(st, text, b);
      TextGrows(c, text, b);
      assert Step(st, b).state == 2;
    } else if st.state == 3 {
      var text, field :| EndsField(c, text, field) && InField(st, text, field);
      FieldStep(st, text, field, b);
      FieldGrows(c, text, field, b);
      FieldRoom(st, text, field);
      if |field| == 4 {
        assert |field + [b]| == 5;
      } else {
        FieldRoom(Step(st, b), text, field + [b]);
      }
    }
  }

  lemma FieldRoom(st: Reader, text: seq<bv8>, field: seq<bv8>)
    requires InField(st, text, field)
    ensures |field| <= 4 && st.state == 3
  {}

  /** Bytes among which no frame ends are all used, and what follows continues from there. */
  lemma {:induction false} FeedOn(st: Reader, a: seq<bv8>, b: seq<bv8>)
    requires !Finds(st, a)
    ensures Feed(st, a).1 == [] && Feed(st, a + b) == Feed(Feed(st, a).0, b)
    ensures Finds(st, a + b) <==> Finds(Feed(st, a).0, b)
    decreases |a|
  {
    hide Step;
    if a == [] {
      assert a + b == b;
    } else {
      assert (a + b)[0] == a[0] && (a + b)[1..] == a[1..] + b;
      FeedOn(Step(st, a[0]), a[1..], b);
    }
  }

  /** At any point of any line, the state says which form the line ends with. */
  lemma {:induction false} SaysAlong(st: Reader, s: seq<bv8>)
    requires st.state == 0 && !Finds(st, s)
    ensures Says(Feed(st, s).0, Clean(s))
    decreases |s|
  {
    hide Says, Step, Matters;
    if s == [] {
      SaysNothing(st);
    } else {
      var n := |s| - 1;
      assert s == s[..n] + [s[n]];
      NotFoundBefore(st, s[..n], [s[n]]);
      SaysAlong(st, s[..n]);
      FeedOn(st, s[..n], [s[n]]);
      FeedOne(Feed(st, s[..n]).0, s[n]);
      CleanSnoc(s[..n], s[n]);
      var r := Feed(st, s[..n]).0;
      if Matters(s[n]) {
        EndsFound(r, s[n]);
        SaysStep(r, Clean(s[..n]), s[n]);
      } else {
        StepNoise(r, s[n]);
        assert Clean(s[..n]) + [] == Clean(s[..n]);
      }
    }
  }

  lemma SaysNothing(st: Reader)
    requires st.state == 0
    ensures Says(st, []) && Feed(st, []).0 == st && Clean([]) == []
  {}

  lemma EndsFound(st: Reader, c: bv8)
    ensures Ends(st, c) ==> Finds(st, [c])
  {}

  lemma {:induction false} NotFoundBefore(st: Reader, a: seq<bv8>, b: seq<bv8>)
    requires !Finds(st, a + b)
    ensures !Finds(st, a)
    decreases |a|
  {
    hide Step;
    if a != [] {
      assert (a + b)[0] == a[0] && (a + b)[1..] == a[1..] + b;
      NotFoundBefore(Step(st, a[0]), a[1..], b);
    }
  }

  lemma {:induction false} CleanSnoc(s: seq<bv8>, c: bv8)
    ensures Clean(s + [c]) == Clean(s) + if Matters(c) then [c] else []
    decreases |s|
  {
    hide Matters;
    if s == [] {
      assert ([] + [c])[1..] == [];
    } else {
      assert (s + [c])[0] == s[0] && (s + [c])[1..] == s[1..] + [c];
      CleanSnoc(s[1..], c);
    }
  }

  // ---------------------------------------------------------------- from any state, a form is recognised

  lemma {:induction false} TextRecognised(st: Reader, text: seq<bv8>)
    requires AllHex(text)
    ensures !Finds(st, [1, 2] + text) && InText(Feed(st, [1, 2] + text).0, text)
    decreases |text|
  {
    hide InText, Step, IsHexDigit;
    if text == [] {
      assert [1, 2] + text == [1, 2];
      HeaderRecognised(st);
    } else {
      var n := |text| - 1;
      var w, r := [1, 2] + text[..n], Feed(st, [1, 2] + text[..n]).0;
      TextRecognised(st, text[..n]);
      assert [1, 2] + text == w + [text[n]] && text == text[..n] + [text[n]];
      HexIsNoControl(text[n]);
      NoEndFound(r, text[n]);
      FeedOn(st, w, [text[n]]);
      FeedOne(r, text[n]);
      TextStep(r, text[..n], text[n]);
    }
  }

  lemma NoEndFound(st: Reader, c: bv8)
    requires c != EOT
    ensures !Finds(st, [c])
  {
    hide Step;
    assert !Finds(Step(st, c), []);
    assert [c][1..] == [];
  }

  lemma HeaderRecognised(st: Reader)
    ensures !Finds(st, [1, 2]) && InText(Feed(st, [1, 2]).0, [])
  {
    hide InText;
    var r := Step(st, 1);
    assert [1, 2] == [1] + [2];
    NoEndFound(st, 1);
    FeedOn(st, [1], [2]);
    FeedOne(st, 1);
    NoEndFound(r, 2);
    FeedOne(r, 2);
    TextOpens(r);
  }

  lemma {:induction false} FieldRecognised(st: Reader, text: seq<bv8>, field: seq<bv8>)
    requires AllHex(text) && AllHex(field) && |field| <= 5
    ensures var w := [1, 2] + text + [3] + field;
      && !Finds(st, w)
      && (|field| <= 4 ==> InField(Feed(st, w).0, text, field))
      && (|field| == 5 ==> Feed(st, w).0.state == -4)
    decreases |field|
  {
    hide InText, InField, Step, IsHexDigit;
    if field == [] {
      var w, r := [1, 2] + text, Feed(st, [1, 2] + text).0;
      TextRecognised(st, text);
      assert w + [3] + field == w + [3];
      NoEndFound(r, 3);
      FeedOn(st, w, [3]);
      FeedOne(r, 3);
      FieldOpens(r, text);
    } else {
      var n := |field| - 1;
      var w := [1, 2] + text + [3] + field[..n];
      var r := Feed(st, w).0;
      FieldRecognised(st, text, field[..n]);
      assert [1, 2] + text + [3] + field == w + [field[n]] && field == field[..n] + [field[n]];
      HexIsNoControl(field[n]);
      NoEndFound(r, field[n]);
      FeedOn(st, w, [field[n]]);
      FeedOne(r, field[n]);
      FieldStep(r, text, field[..n], field[n]);
    }
  }

  /** A line without noise among which no frame ends, in two pieces. */
  lemma FormAtEnd(st: Reader, pre: seq<bv8>, w: seq<bv8>)
    requires !Finds(st, pre + w)
    ensures Feed(st, pre + w).0 == Feed(Feed(st, pre).0, w).0
  {
    NotFoundBefore(st, pre, w);
    FeedOn(st, pre, w);
  }

  lemma StateOfForm(st: Reader, c: seq<bv8>)
    requires !Finds(st, c)
    ensures EndsOpened(c) ==> Feed(st, c).0.state == 1
    ensures (exists text :: EndsText(c, text)) ==> Feed(st, c).0.state == 2
    ensures (exists text, field :: EndsField(c, text, field) && |field| <= 4) ==> Feed(st, c).0.state == 3
    ensures (exists text, field :: EndsField(c, text, field) && |field| == 5) ==> Feed(st, c).0.state == -4
  {
    hide Step, AllHex, Feed, Finds;
    if EndsOpened(c) {
      var pre := c[..|c| - 1];
      assert c == pre + [1];
      FormAtEnd(st, pre, [1]);
      FeedOne(Feed(st, pre).0, 1);
      SohOpens(Feed(st, pre).0);
    }
    forall text | EndsText(c, text)
      ensures Feed(st, c).0.state == 2
    {
      var pre: seq<bv8> :| c == pre + [1, 2] + text;
      assert c == pre + ([1, 2] + text);
      FormAtEnd(st, pre, [1, 2] + text);
      TextRecognised(Feed(st, pre).0, text);
    }
    forall text, field | EndsField(c, text, field) && |field| <= 5
      ensures Feed(st, c).0.state == if |field| <= 4 then 3 else -4
    {
      var pre: seq<bv8> :| c == pre + [1, 2] + text + [3] + field;
      var w := [1, 2] + text + [3] + field;
      assert c == pre + w;
      FormAtEnd(st, pre, w);
      FieldRecognised(Feed(st, pre).0, text, field);
    }
  }

  lemma SohOpens(st: Reader)
    ensures Step(st, 1).state == 1
  {}

  /** What a line without noise ends with: the reader's state, by the form alone. */
  ghost predicate StateFits(state: int, c: seq<bv8>) {
    && state in {0, 1, 2, 3, -4}
    && (state == 1 <==> EndsOpened(c))
    && (state == 2 <==> exists text :: EndsText(c, text))
    && (state == 3 <==> exists text, field :: EndsField(c, text, field) && |field| <= 4)
    && (state == -4 <==> exists text, field :: EndsField(c, text, field) && |field| == 5)
  }

  /**
   As long as no frame has ended, the state is the form: header after a 1, text after 1, 2 and digits, CRC field
   after 3 and up to four digits, illegal at the fifth, and idle after anything else.  Noise does not matter.
   */
  lemma StateIsForm(st: Reader, s: seq<bv8>)
    requires st.state == 0 && !Finds(st, s)
    ensures StateFits(Feed(st, s).0.state, Clean(s))
  {
    hide Step, Clean, EndsOpened, EndsText, EndsField, InText, InField, Feed, Finds;
    SaysAlong(st, s);
    NoiseIgnored(st, s);
    CleanNotFound(st, s);
    StateOfForm(st, Clean(s));
    SaysShort(Feed(st, s).0, Clean(s));
  }

  lemma SaysShort(st: Reader, c: seq<bv8>)
    requires Says(st, c)
    ensures st.state == 3 ==> exists text, field :: EndsField(c, text, field) && |field| <= 4
  {
    hide EndsField;
    if st.state == 3 {
      var text, field :| EndsField(c, text, field) && InField(st, text, field);
      assert |field| <= 4;
    }
  }

  lemma {:induction false} CleanNotFound(st: Reader, s: seq<bv8>)
    ensures Finds(st, Clean(s)) <==> Finds(st, s)
    decreases |s|
  {
    hide Step, Matters;
    if s != [] {
      var c, t := s[0], s[1..];
      if Matters(c) {
        assert Clean(s)[0] == c && Clean(s)[1..] == Clean(t);
        CleanNotFound(Step(st, c), t);
      } else {
        StepNoise(st, c);
        CleanNotFound(st, t);
      }
    }
  }

  /** A byte that matters is taken in an error state as it is in the idle state. */
  lemma ErrorIsIdle(st: Reader, c: bv8)
    requires Matters(c) && st.state !in {1, 2, 3}
    ensures Step(st, c) == Step(st.(state := 0), c)
  {
    hide Update, High, Join, Placed, Plus;
  }

  // ---------------------------------------------------------------- what is accepted

  /** The line ends with 1, 2, text, 3, at most four digits and 4. */
  ghost predicate EndsMessage(c: seq<bv8>, text: seq<bv8>, field: seq<bv8>) {
    AllHex(text) && AllHex(field) && |field| <= 4 && exists pre: seq<bv8> :: c == pre + [1, 2] + text + [3] + field + [4]
  }

  /** Where the first frame ends. */
  lemma {:induction false} FirstEnd(st: Reader, s: seq<bv8>) returns (n: nat)
    requires Finds(st, s)
    ensures n < |s| && !Finds(st, s[..n]) && Ends(Feed(st, s[..n]).0, s[n])
    ensures Feed(st, s) == (Step(Feed(st, s[..n]).0, s[n]), s[n + 1..])
    decreases |s|
  {
    hide Step;
    if Ends(st, s[0]) {
      n := 0;
      assert s[..0] == [];
    } else {
      var m := FirstEnd(Step(st, s[0]), s[1..]);
      n := m + 1;
      assert s[..n][0] == s[0] && s[..n][1..] == s[1..][..m];
    }
  }

  /** A frame is only ever ended by a message's form, and judged by comparing the text's CRC with the sum of the field. */
  lemma MessageFound(st: Reader, s: seq<bv8>) returns (n: nat, text: seq<bv8>, field: seq<bv8>)
    requires st.state == 0 && Finds(st, s)
    ensures n < |s| && EndsMessage(Clean(s[..n + 1]), text, field) && Feed(st, s).1 == s[n + 1..]
    ensures Feed(st, s).0.data == Pairs(text)
    ensures Feed(st, s).0.state == if CrcOf(0xFFFF, text) == FieldSum(field) then 4 else -1
  {
    hide Feed, Finds, Clean, EndsField, InField, AllHex, CrcOf, FieldSum, Pairs;
    n := FirstEnd(st, s);
    SaysAlong(st, s[..n]);
    var r := Feed(st, s[..n]).0;
    text, field :| EndsField(Clean(s[..n]), text, field) && InField(r, text, field);
    assert s[..n + 1] == s[..n] + [s[n]];
    CleanSnoc(s[..n], s[n]);
    MessageClosed(r, Clean(s[..n]), text, field);
  }

  lemma MessageClosed(r: Reader, c: seq<bv8>, text: seq<bv8>, field: seq<bv8>)
    requires EndsField(c, text, field) && InField(r, text, field)
    ensures EndsMessage(c + [4], text, field)
    ensures Step(r, 4).data == Pairs(text)
    ensures Step(r, 4).state == if CrcOf(0xFFFF, text) == FieldSum(field) then 4 else -1
  {
    hide AllHex, CrcOf, FieldSum, Pairs;
    var pre: seq<bv8> :| c == pre + [1, 2] + text + [3] + field;
    assert c + [4] == pre + [1, 2] + text + [3] + field + [4];
  }
}
