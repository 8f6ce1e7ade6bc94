/** Decoding inverts encoding: the decoder rebuilds, one code behind, the table the
    encoder built, so every code it reads stands for the string the encoder matched,
    including the one code the encoder added just before writing it (KwKwK). */
module RoundTrip {
  import opened Bits
  import opened Dictionary
  import opened CodeStream
  import opened Coding
  import opened Encoder
  import opened Decoder

  /** The first n entries of a valid table are a valid table, and mean the same. */
  lemma TablePrefix(dict: seq<Entry>, n: nat, code: int)
    requires ValidTable(dict) && FIRST_CODE <= n <= |dict| && -1 <= code < n
    ensures ValidTable(dict[..n])
    ensures Expand(dict[..n], code) == Expand(dict, code)
  {
    ExpandPrefix(dict, n, code);
    assert forall i :: 0 <= i < n ==> dict[..n][i] == dict[i];
  }

  /** The decoder's variables after the first j codes of a parse over `dict`: the
      first TableSize(j) entries, the width for one more, and the last code read. */
  ghost function Expected(dict: seq<Entry>, codes: seq<nat>, j: nat): DecState
    requires ValidTable(dict) && 1 <= j <= |codes| && TableSize(j) <= |dict| && codes[j - 1] < |dict|
  {
    var n := TableSize(j);
    DecState(dict[..n], n, CodeWidth(n + 1), codes[j - 1], Expand(dict, codes[j - 1]))
  }

  /** Where a parse puts the decoder is a state of the decoder. */
  lemma ExpectedInv(dict: seq<Entry>, codes: seq<nat>, s: seq<Byte>, j: nat)
    requires Parses(dict, codes, s) && 1 <= j <= |codes|
    ensures TableSize(j) <= |dict| && codes[j - 1] < TableSize(j)
    ensures DecInv(Expected(dict, codes, j))
  {
    var n := TableSize(j);
    assert codes[j - 1] < Min(FIRST_CODE + (j - 1), MAXCODE);
    TablePrefix(dict, n, codes[j - 1]);
  }

  /** The first code: a byte, decoded over the seeded table. */
  lemma FirstStep(dict: seq<Entry>, codes: seq<nat>, s: seq<Byte>)
    requires Parses(dict, codes, s) && |codes| >= 1
    ensures DecodeCodes(codes[..1]) == Ok((Expected(dict, codes, 1), Flatten(dict, codes[..1])))
  {
    ExpectedInv(dict, codes, s, 1);
    var c := codes[0];
    assert dict[..FIRST_CODE] == SeedTable();
    TablePrefix(dict, FIRST_CODE, c);
    MaxCodeValue();
    assert CodeWidth(FIRST_CODE + 1) == INIT_BITS;
    assert codes[..1] == [c] && [c][..0] == [];
    assert Flatten(dict, [c]) == Expand(dict, c);
  }

  /** The end of decodeOne from Expected(j), while there is room: the entry it adds is
      entry TableSize(j) of the parse's table, so it arrives at Expected(j + 1). */
  lemma GrowTo(dict: seq<Entry>, codes: seq<nat>, j: nat, out: seq<Byte>)
    requires ValidTable(dict) && 1 <= j < |codes| && TableSize(j) < MAXCODE
    requires TableSize(j) < |dict| && codes[j - 1] < TableSize(j) && codes[j] <= TableSize(j)
    requires |out| > 0 && dict[TableSize(j)] == Entry(codes[j - 1], out[0])
    requires out == Expand(dict, codes[j])
    ensures TableSize(j + 1) == TableSize(j) + 1
    ensures Grow(Expected(dict, codes, j), codes[j], out) == Expected(dict, codes, j + 1)
  {
    var n, m := TableSize(j), TableSize(j + 1);
    TableSizeSucc(j);
    ExpectedIs(dict, codes, j);
    assert m <= |dict| && codes[j] < |dict|;
    ExpectedIs(dict, codes, j + 1);
    GrowOnto(dict, n, m, Expected(dict, codes, j), codes[j], out, Expected(dict, codes, j + 1));
  }

  /** A proof step, not a fact of the codec: below the cap the table grows by one entry per code. */
  lemma TableSizeSucc(j: nat)
    requires j >= 1 && TableSize(j) < MAXCODE
    ensures TableSize(j + 1) == TableSize(j) + 1
  {
  }

  /** Grow from a prefix of dict of length n arrives at the prefix of length n + 1. */
  lemma GrowOnto(dict: seq<Entry>, n: nat, m: nat, st: DecState, code: nat, out: seq<Byte>, e: DecState)
    requires m == n + 1 && n < |dict| && n < MAXCODE && |out| > 0
    requires st.dict == dict[..n] && st.nextCode == n && st.codeSize == CodeWidth(n + 1) && st.oldCode >= -1
    requires dict[n] == Entry(st.oldCode, out[0])
    requires e.dict == dict[..m] && e.nextCode == m && e.codeSize == CodeWidth(m + 1)
    requires e.oldCode == code && e.oldString == out
    ensures Grow(st, code, out) == e
  {
    TakeSnoc(dict, n);
    GrowIs(st, code, out, e);
  }

  /** A proof step, not a fact of the codec: the fields of Expected. */
  lemma ExpectedIs(dict: seq<Entry>, codes: seq<nat>, j: nat)
    requires ValidTable(dict) && 1 <= j <= |codes| && TableSize(j) <= |dict| && codes[j - 1] < |dict|
    ensures var st := Expected(dict, codes, j);
      st.dict == dict[..TableSize(j)] && st.nextCode == TableSize(j) && st.codeSize == CodeWidth(TableSize(j) + 1) &&
      st.oldCode == codes[j - 1] && st.oldString == Expand(dict, codes[j - 1])
  {
  }

  /** A proof step, not a fact of the codec: one more element of a prefix. */
  lemma TakeSnoc(dict: seq<Entry>, n: nat)
    requires n < |dict|
    ensures dict[..n] + [dict[n]] == dict[..n + 1]
  {
  }

  /** The state Grow arrives at, field by field. */
  lemma GrowIs(st: DecState, code: nat, out: seq<Byte>, e: DecState)
    requires |out| > 0 && st.nextCode == |st.dict| < MAXCODE && st.oldCode >= -1
    requires st.codeSize == CodeWidth(st.nextCode + 1)
    requires e.dict == st.dict + [Entry(st.oldCode, out[0])] && e.nextCode == st.nextCode + 1
    requires e.codeSize == CodeWidth(e.nextCode + 1) && e.oldCode == code && e.oldString == out
    ensures Grow(st, code, out) == e
  {
    GrowWidth(st, code, out);
  }

  /** A later code that is already in the decoder's table, while there is room: the
      entry the decoder adds is the encoder's entry 256 + j - 1. */
  lemma KnownStep(dict: seq<Entry>, codes: seq<nat>, s: seq<Byte>, j: nat)
    requires Parses(dict, codes, s) && 1 <= j < |codes|
    requires codes[j] < TableSize(j) < MAXCODE
    ensures (ExpectedInv(dict, codes, s, j); ExpectedInv(dict, codes, s, j + 1);
      DecodeStep(Expected(dict, codes, j), codes[j]) == Ok((Expected(dict, codes, j + 1), Expand(dict, codes[j]))))
  {
    ExpectedInv(dict, codes, s, j);
    ExpectedInv(dict, codes, s, j + 1);
    var n := TableSize(j);
    TablePrefix(dict, n, codes[j]);
    assert Link(dict, codes, j - 1);
    GrowTo(dict, codes, j, Expand(dict, codes[j]));
  }

  /** The string of the KwKwK code: the previous string followed by its own first
      byte, which is also the entry's byte. */
  lemma KwKwKString(dict: seq<Entry>, codes: seq<nat>, s: seq<Byte>, j: nat)
    requires Parses(dict, codes, s) && 1 <= j < |codes|
    requires codes[j] >= TableSize(j)
    ensures codes[j] == TableSize(j) < MAXCODE
    ensures var prev := Expand(dict, codes[j - 1]);
      dict[codes[j]] == Entry(codes[j - 1], prev[0]) && Expand(dict, codes[j]) == prev + [prev[0]]
  {
    var code := codes[j];
    assert code < Min(FIRST_CODE + j, MAXCODE);
    assert Link(dict, codes, j - 1);
    ExpandExtends(dict, code);
  }

  /** The KwKwK code: the one code the encoder added just before writing it. Its string
      is the previous string followed by that string's own first byte. */
  lemma KwKwKStep(dict: seq<Entry>, codes: seq<nat>, s: seq<Byte>, j: nat)
    requires Parses(dict, codes, s) && 1 <= j < |codes|
    requires codes[j] >= TableSize(j)
    ensures codes[j] == TableSize(j) < MAXCODE
    ensures (ExpectedInv(dict, codes, s, j); ExpectedInv(dict, codes, s, j + 1);
      DecodeStep(Expected(dict, codes, j), codes[j]) == Ok((Expected(dict, codes, j + 1), Expand(dict, codes[j]))))
  {
    ExpectedInv(dict, codes, s, j);
    ExpectedInv(dict, codes, s, j + 1);
    KwKwKString(dict, codes, s, j);
    GrowTo(dict, codes, j, Expand(dict, codes[j]));
  }

  /** A later code once the table is full: nothing is added. */
  lemma FullStep(dict: seq<Entry>, codes: seq<nat>, s: seq<Byte>, j: nat)
    requires Parses(dict, codes, s) && 1 <= j < |codes|
    requires TableSize(j) >= MAXCODE
    ensures (ExpectedInv(dict, codes, s, j); ExpectedInv(dict, codes, s, j + 1);
      DecodeStep(Expected(dict, codes, j), codes[j]) == Ok((Expected(dict, codes, j + 1), Expand(dict, codes[j]))))
  {
    ExpectedInv(dict, codes, s, j);
    ExpectedInv(dict, codes, s, j + 1);
    var n := TableSize(j);
    assert codes[j] < Min(FIRST_CODE + j, MAXCODE);
    TablePrefix(dict, n, codes[j]);
  }

  /** Code i of a parse, decoded from Expected(i): Expected(i + 1) and the code's string. */
  lemma StepFrom(dict: seq<Entry>, codes: seq<nat>, s: seq<Byte>, i: nat)
    requires Parses(dict, codes, s) && 1 <= i < |codes|
    ensures (ExpectedInv(dict, codes, s, i); ExpectedInv(dict, codes, s, i + 1);
      DecodeStep(Expected(dict, codes, i), codes[i]) == Ok((Expected(dict, codes, i + 1), Expand(dict, codes[i]))))
  {
    if TableSize(i) >= MAXCODE {
      FullStep(dict, codes, s, i);
    } else if codes[i] < TableSize(i) {
      KnownStep(dict, codes, s, i);
    } else {
      KwKwKStep(dict, codes, s, i);
    }
  }

  /** A proof step, not a fact of the codec: one more element of a prefix of the codes. */
  lemma PrefixSnoc(codes: seq<nat>, i: nat)
    requires i < |codes|
    ensures codes[..i] + [codes[i]] == codes[..i + 1]
  {
  }

  /** One more code of the parse, decoded. */
  lemma PrefixStep(dict: seq<Entry>, codes: seq<nat>, s: seq<Byte>, i: nat)
    requires Parses(dict, codes, s) && 1 <= i < |codes|
    requires (ExpectedInv(dict, codes, s, i);
      DecodeCodes(codes[..i]) == Ok((Expected(dict, codes, i), Flatten(dict, codes[..i]))))
    ensures (ExpectedInv(dict, codes, s, i + 1);
      DecodeCodes(codes[..i + 1]) == Ok((Expected(dict, codes, i + 1), Flatten(dict, codes[..i + 1]))))
  {
    StepFrom(dict, codes, s, i);
    PrefixSnoc(codes, i);
    FlattenSnoc(dict, codes[..i], codes[i]);
    DecodeMore(codes[..i], codes[i], Expected(dict, codes, i), Flatten(dict, codes[..i]),
               Expected(dict, codes, i + 1), Expand(dict, codes[i]));
  }

  /** Decoding the first j codes of a parse leaves the decoder at Expected(j), having
      written the strings of those codes. */
  lemma {:induction false} DecodePrefix(dict: seq<Entry>, codes: seq<nat>, s: seq<Byte>, j: nat)
    requires Parses(dict, codes, s) && 1 <= j <= |codes|
    ensures (ExpectedInv(dict, codes, s, j);
      DecodeCodes(codes[..j]) == Ok((Expected(dict, codes, j), Flatten(dict, codes[..j]))))
    decreases j
  {
    if j == 1 {
      FirstStep(dict, codes, s);
    } else {
      DecodePrefix(dict, codes, s, j - 1);
      PrefixStep(dict, codes, s, j - 1);
    }
  }

  /** The decoder reads back the string of any parse. */
  lemma DecodeParses(dict: seq<Entry>, codes: seq<nat>, s: seq<Byte>)
    requires Parses(dict, codes, s)
    ensures DecodeCodes(codes).Ok? && DecodeCodes(codes).value.1 == s
  {
    if codes != [] {
      DecodePrefix(dict, codes, s, |codes|);
      assert codes[..|codes|] == codes;
    }
  }

  /** Whatever bytes carry the encoder's codes, followed by fewer than eight bits of
      padding, decode to the encoder's input. */
  lemma RoundTrip(s: seq<Byte>, out: seq<Byte>, pad: nat)
    requires pad < 8 && BytesToBits(out) == CodeBits(EncodeCodes(s), 0) + Zeros(pad)
    ensures DecodeStream(out) == Ok(s)
  {
    EncodeParses(s);
    PaddingIgnored(EncodeCodes(s), pad);
    DecodeParses(EncRun(s).dict, EncodeCodes(s), s);
  }

  /** execEncoding followed by execDecoding gives back the input. */
  method EncodeThenDecode(input: seq<Byte>) returns (r: Result<seq<Byte>>)
    ensures r == Ok(input)
  {
    var packed := ExecEncoding(input);
    RoundTrip(input, packed, 8 * |packed| - |CodeBits(EncodeCodes(input), 0)|);
    r := ExecDecoding(packed);
  }
}
