/** The LZW decoder of decoder.hpp: it rebuilds the encoder's table one step behind it,
    reads each code at the width the encoder wrote it with, and resolves the one code
    that is not yet in its table (the KwKwK case) from the previous string. */
module Decoder {
  import opened Bits
  import opened Dictionary
  import opened CodeStream
  import opened Coding
  import opened BitIO

  /** A code the decoder cannot resolve: beyond its table and not the one entry it is
      about to add. The source indexes its table out of bounds on such a code. */
  datatype DecodeError = InvalidCode(code: nat)

  datatype Result<T> = Ok(value: T) | Err(error: DecodeError)

  function Reverse(s: seq<Byte>): (r: seq<Byte>)
    ensures |r| == |s| && forall i :: 0 <= i < |s| ==> r[i] == s[|s| - 1 - i]
  {
    if s == [] then [] else [s[|s| - 1]] + Reverse(s[..|s| - 1])
  }

  lemma ReverseSnoc(s: seq<Byte>, b: Byte)
    ensures Reverse(s + [b]) == [b] + Reverse(s)
  {
    assert (s + [b])[..|s|] == s;
  }

  /** reconstructString: a byte code stands for itself; any other code is read by walking
      its prefix chain to the root, collecting bytes last first, then reversing them. */
  method ReconstructString(dict: seq<Entry>, code: int) returns (r: seq<Byte>)
    requires ValidTable(dict) && 0 <= code < |dict|
    ensures r == Expand(dict, code) && |r| > 0
  {
    if code < 256 {
      return [code];
    }
    var result: seq<Byte> := [];
    var c := code;
    while c != -1
      invariant -1 <= c < |dict|
      invariant Expand(dict, code) == Expand(dict, c) + Reverse(result)
      decreases c + 1
    {
      var e := dict[c];
      ReverseSnoc(result, e.ch);
      result := result + [e.ch];
      c := e.prefix;
    }
    r := Reverse(result);
  }

  /** The variables decodeOne captures. */
  datatype DecState = DecState(dict: seq<Entry>, nextCode: int, codeSize: nat, oldCode: int,
                               oldString: seq<Byte>)

  function DecInit(): DecState
  {
    DecState(SeedTable(), FIRST_CODE, INIT_BITS, -1, [])
  }

  /** The decoder's invariant: a valid table with nextCode entries and the width of
      nextCode + 1; before the first code nothing has been added, afterwards oldCode is
      in the table (or is the one code past a full table) and oldString is its string. */
  ghost predicate DecInv(st: DecState)
  {
    ValidTable(st.dict) &&
    st.nextCode == |st.dict| <= MAXCODE &&
    st.codeSize == CodeWidth(st.nextCode + 1) &&
    (st.oldCode == -1 ==> |st.dict| == FIRST_CODE) &&
    (st.oldCode != -1 ==>
       |st.oldString| > 0 &&
       (0 <= st.oldCode < |st.dict| || st.oldCode == |st.dict| == MAXCODE)) &&
    (0 <= st.oldCode < |st.dict| ==> st.oldString == Expand(st.dict, st.oldCode))
  }

  lemma DecInitInv()
    ensures DecInv(DecInit())
  {
    SeedValid();
    assert CodeWidth(FIRST_CODE + 1) == INIT_BITS by {
      MaxCodeValue();
    }
  }

  /** decodeOne as a function of the captured variables: the decoded string and the new
      variables, or the code it cannot resolve. */
  function DecodeStep(st: DecState, code: nat): (r: Result<(DecState, seq<Byte>)>)
    requires DecInv(st)
    ensures r.Ok? ==> DecInv(r.value.0) && |r.value.1| > 0 && r.value.0.oldCode == code
    ensures r.Err? <==> code >= |st.dict| && (st.oldCode == -1 || code != st.nextCode)
  {
    if st.oldCode == -1 then
      if code < |st.dict| then
        var s := Expand(st.dict, code);
        Ok((st.(oldCode := code, oldString := s), s))
      else Err(InvalidCode(code))
    else if code >= |st.dict| && code == st.nextCode then
      var out := st.oldString + [st.oldString[0]];
      StepInv(st, code, out);
      Ok((Grow(st, code, out), out))
    else if code < |st.dict| then
      var out := Expand(st.dict, code);
      StepInv(st, code, out);
      Ok((Grow(st, code, out), out))
    else
      Err(InvalidCode(code))
  }

  /** A non-first decodeOne that resolves its code ends in Grow. */
  lemma StepOk(st: DecState, code: nat, out: seq<Byte>)
    requires DecInv(st) && st.oldCode != -1
    requires (code >= |st.dict| && code == st.nextCode && out == st.oldString + [st.oldString[0]]) ||
             (code < |st.dict| && out == Expand(st.dict, code))
    ensures |out| > 0 && DecodeStep(st, code) == Ok((Grow(st, code, out), out))
  {
  }

  /** The end of a non-first decodeOne: add {oldCode, out[0]} while there is room, grow the
      width by the decoder's rule, and remember the code and its string. */
  function Grow(st: DecState, code: nat, out: seq<Byte>): DecState
    requires |out| > 0 && st.nextCode == |st.dict| && st.oldCode >= -1
  {
    if st.nextCode < MAXCODE then
      var n := st.nextCode + 1;
      var w := NextWidth(n, st.codeSize);
      DecState(st.dict + [Entry(st.oldCode, out[0])], n, w, code, out)
    else
      st.(oldCode := code, oldString := out)
  }

  /** decodeOne keeps the decoder's invariant. */
  lemma StepInv(st: DecState, code: nat, out: seq<Byte>)
    requires DecInv(st) && st.oldCode != -1
    requires code >= |st.dict| && code == st.nextCode ==> out == st.oldString + [st.oldString[0]]
    requires code < |st.dict| ==> out == Expand(st.dict, code)
    requires code <= |st.dict|
    ensures |out| > 0 && DecInv(Grow(st, code, out))
  {
    if st.nextCode < MAXCODE {
      if code < |st.dict| {
        GrowKnown(st, code, out);
      } else {
        GrowKwKwK(st, code, out);
      }
    }
  }

  /** The decoder's growth rule keeps codeSize at the width of nextCode + 1. */
  lemma GrowWidth(st: DecState, code: nat, out: seq<Byte>)
    requires |out| > 0 && st.nextCode == |st.dict| < MAXCODE && st.oldCode >= -1
    requires st.codeSize == CodeWidth(st.nextCode + 1)
    ensures Grow(st, code, out).codeSize == CodeWidth(Grow(st, code, out).nextCode + 1)
  {
    var m := st.nextCode + 1;
    var st' := Grow(st, code, out);
    assert st'.nextCode == m;
    assert st'.codeSize == NextWidth(m, st.codeSize);
    WidthNext(m, st.codeSize, st'.codeSize);
  }

  /** A code already in the table, while there is room: the new entry is {oldCode, out[0]}. */
  lemma GrowKnown(st: DecState, code: nat, out: seq<Byte>)
    requires DecInv(st) && st.oldCode != -1 && st.nextCode < MAXCODE
    requires code < |st.dict| && out == Expand(st.dict, code)
    ensures DecInv(Grow(st, code, out))
  {
    var e := Entry(st.oldCode, out[0]);
    var dict' := st.dict + [e];
    var st' := Grow(st, code, out);
    assert st'.dict == dict' && st'.nextCode == |dict'| && st'.oldCode == code && st'.oldString == out;
    AppendValid(st.dict, st.oldCode, out[0]);
    GrowWidth(st, code, out);
    ExpandAppend(st.dict, e, code);
    assert st'.oldString == Expand(dict', code);
  }

  /** The KwKwK code, while there is room: the entry added is the code itself, whose
      string is the previous string followed by its own first byte. */
  lemma GrowKwKwK(st: DecState, code: nat, out: seq<Byte>)
    requires DecInv(st) && st.oldCode != -1 && st.nextCode < MAXCODE
    requires code == |st.dict| && out == st.oldString + [st.oldString[0]]
    ensures DecInv(Grow(st, code, out))
  {
    var e := Entry(st.oldCode, out[0]);
    var dict' := st.dict + [e];
    var st' := Grow(st, code, out);
    assert st'.dict == dict' && st'.nextCode == |dict'| && st'.oldCode == code && st'.oldString == out;
    AppendValid(st.dict, st.oldCode, out[0]);
    GrowWidth(st, code, out);
    ExpandAppend(st.dict, e, st.oldCode);
    assert dict'[code] == e;
    assert Expand(dict', code) == Expand(dict', st.oldCode) + [out[0]];
    assert st'.oldString == Expand(dict', code);
  }

  /** The decoder after a sequence of codes, or the first code it cannot resolve. */
  function DecodeCodes(codes: seq<nat>): (r: Result<(DecState, seq<Byte>)>)
    ensures r.Ok? ==> DecInv(r.value.0)
  {
    if codes == [] then DecInitInv(); Ok((DecInit(), []))
    else
      match DecodeCodes(codes[..|codes| - 1])
      case Err(e) => Err(e)
      case Ok((st, out)) =>
        match DecodeStep(st, codes[|codes| - 1])
        case Err(e) => Err(e)
        case Ok((st', s)) => Ok((st', out + s))
  }

  /** The decoded bytes of a whole input, read as codes at the stream's widths. */
  function DecodeStream(input: seq<Byte>): Result<seq<Byte>>
  {
    match DecodeCodes(ParseCodes(BytesToBits(input), 0))
    case Err(e) => Err(e)
    case Ok((_, out)) => Ok(out)
  }

  /** After n codes the decoder has TableSize(n) entries and reads the next code at the
      width it was written with. */
  lemma {:induction false} DecodeWidth(codes: seq<nat>)
    requires DecodeCodes(codes).Ok?
    ensures DecodeCodes(codes).value.0.nextCode == TableSize(|codes|)
    ensures DecodeCodes(codes).value.0.codeSize == WidthAt(|codes|)
    ensures codes != [] ==> DecodeCodes(codes).value.0.oldCode == codes[|codes| - 1]
    ensures codes == [] ==> DecodeCodes(codes).value.0.oldCode == -1
  {
    if codes != [] {
      var init, code := codes[..|codes| - 1], codes[|codes| - 1];
      DecodeLast(codes);
      DecodeWidth(init);
      var st0 := DecodeCodes(init).value.0;
      SizeStep(st0, code, |init|, |codes|);
      var st := DecodeCodes(codes).value.0;
      TableSizeNext(|codes|);
      assert st.nextCode + 1 == Min(FIRST_CODE + |codes|, MAXCODE + 1);
      WidthAtCapped(|codes|);
    } else {
      assert CodeWidth(FIRST_CODE + 1) == INIT_BITS && WidthAt(0) == INIT_BITS by {
        MaxCodeValue();
      }
    }
  }

  /** DecodeCodes of a non-empty sequence is one DecodeStep after the others. */
  lemma DecodeLast(codes: seq<nat>)
    requires codes != [] && DecodeCodes(codes).Ok?
    ensures var init := codes[..|codes| - 1];
      DecodeCodes(init).Ok? && DecodeStep(DecodeCodes(init).value.0, codes[|codes| - 1]).Ok? &&
      DecodeCodes(codes).value.0 == DecodeStep(DecodeCodes(init).value.0, codes[|codes| - 1]).value.0
  {
  }

  lemma TableSizeNext(n: nat)
    requires n >= 1
    ensures TableSize(n) + 1 == Min(FIRST_CODE + n, MAXCODE + 1)
  {
  }

  /** One decodeOne after k codes: the table then holds TableSize(k + 1) entries. */
  lemma SizeStep(st: DecState, code: nat, k: nat, k1: nat)
    requires DecInv(st) && DecodeStep(st, code).Ok? && st.nextCode == TableSize(k) && k1 == k + 1
    requires k == 0 <==> st.oldCode == -1
    ensures DecodeStep(st, code).value.0.nextCode == TableSize(k1)
  {
    var st' := DecodeStep(st, code).value.0;
    if st.oldCode == -1 {
      assert st'.nextCode == st.nextCode == FIRST_CODE;
    } else if st.nextCode < MAXCODE {
      assert st'.nextCode == st.nextCode + 1;
    } else {
      assert st'.nextCode == st.nextCode;
    }
  }

  /** Once a code fails, every longer sequence fails with the same error. */
  lemma {:induction false} ErrorPrefix(codes: seq<nat>, more: seq<nat>)
    requires DecodeCodes(codes).Err?
    ensures DecodeCodes(codes + more) == DecodeCodes(codes)
    decreases |more|
  {
    if more != [] {
      var init := more[..|more| - 1];
      ErrorPrefix(codes, init);
      assert (codes + more)[..|codes + more| - 1] == codes + init;
    } else {
      assert codes + more == codes;
    }
  }

  /** The variables decodeOne captures from execDecoding, as one object. */
  class LzwDecoder {
    var dict: seq<Entry>
    var nextCode: int
    var codeSize: nat
    var oldCode: int
    var oldString: seq<Byte>

    ghost function State(): DecState
      reads this
    {
      DecState(dict, nextCode, codeSize, oldCode, oldString)
    }

    /** execDecoding's initialisation: the seeded table, nextCode 256, width 9, no old code. */
    constructor ()
      ensures State() == DecInit() && DecInv(State())
    {
      var d, lookup := InitDictionary();
      dict := d;
      nextCode := FIRST_CODE;
      codeSize := INIT_BITS;
      oldCode := -1;
      oldString := [];
      DecInitInv();
    }

    /** decodeOne: the string of newCode (the previous string plus its first byte in the
        KwKwK case), with the table and width grown one step; an error for a code the
        table cannot resolve. */
    method DecodeOne(newCode: nat) returns (r: Result<seq<Byte>>)
      requires DecInv(State())
      modifies this
      ensures r.Ok? ==> DecodeStep(old(State()), newCode) == Ok((State(), r.value))
      ensures r.Err? ==> DecodeStep(old(State()), newCode) == Err(r.error) && State() == old(State())
    {
      if oldCode == -1 {
        if newCode >= |dict| {
          return Err(InvalidCode(newCode));
        }
        oldCode := newCode;
        oldString := ReconstructString(dict, newCode);
        return Ok(oldString);
      }
      ghost var st := State();
      var out: seq<Byte>;
      if newCode >= |dict| && newCode == nextCode {
        out := oldString + [oldString[0]];
      } else if newCode < |dict| {
        out := ReconstructString(dict, newCode);
      } else {
        return Err(InvalidCode(newCode));
      }
      StepOk(st, newCode, out);
      Remember(newCode, out);
      r := Ok(out);
    }

    /** The end of a non-first decodeOne: add {oldCode, out[0]} while there is room, grow
        the width, and remember the code and its string. */
    method Remember(newCode: nat, out: seq<Byte>)
      requires |out| > 0 && nextCode == |dict| && oldCode >= -1
      modifies this
      ensures State() == Grow(old(State()), newCode, out)
    {
      if nextCode < MAXCODE {
        dict := dict + [Entry(oldCode, out[0])];
        nextCode := nextCode + 1;
        if nextCode + 1 == Pow2(codeSize) && codeSize < MAXBITS {
          codeSize := codeSize + 1;
        }
      }
      oldCode := newCode;
      oldString := out;
    }
  }

  /** Feeding one input byte: its bits go in above the pending bits, which the 64-bit
      register holds as long as at most 56 bits are pending. */
  method FeedByte(bp: BitPacker, b: Byte)
    requires bp.Valid() && bp.bitCount + 8 <= 64
    modifies bp
    ensures bp.Valid() && bp.output == old(bp.output) && bp.bitCount == old(bp.bitCount) + 8
    ensures bp.Pending() == old(bp.Pending()) + NatToBits(b, 8)
  {
    MergeBits(bp.bitBuf, bp.bitCount, b, 8);
    bp.bitBuf := Merge(bp.bitBuf, bp.bitCount, b);
    bp.bitCount := bp.bitCount + 8;
  }

  /** How the packer, the decoder and the codes read so far relate to the bits fed in:
      the codes read, then the pending bits, are the bits fed; the decoder is where
      DecodeCodes puts it, and its output so far is in the packer's output. */
  ghost predicate Sync(bp: BitPacker, dec: LzwDecoder, consumed: seq<nat>, bits: seq<bool>)
    reads bp, dec
  {
    bp.Valid() && FitWidths(consumed, 0) &&
    CodeBits(consumed, 0) + bp.Pending() == bits &&
    DecodeCodes(consumed) == Ok((dec.State(), bp.output)) &&
    dec.codeSize == WidthAt(|consumed|)
  }

  datatype Status = Decoded | NoCode | Failed(error: DecodeError)

  /** The bookkeeping of one read: the code just read joins the codes consumed, and
      the bits left pending are what follows it. */
  lemma ReadMore(consumed: seq<nat>, code: nat, pending: seq<bool>, bits: seq<bool>)
    requires CodeBits(consumed, 0) + pending == bits
    requires WidthAt(|consumed|) <= |pending|
    requires NatToBits(code, WidthAt(|consumed|)) == pending[..WidthAt(|consumed|)]
    ensures CodeBits(consumed + [code], 0) + pending[WidthAt(|consumed|)..] == bits
  {
    var w := WidthAt(|consumed|);
    CodeBitsSnoc(consumed, code, 0, |consumed|);
    Regroup(CodeBits(consumed, 0), pending, w, bits);
  }

  /** A proof step, not a fact of the codec: regrouping the consumed bits, the pending bits and the code just read. */
  lemma Regroup(a: seq<bool>, pending: seq<bool>, w: nat, bits: seq<bool>)
    requires a + pending == bits && w <= |pending|
    ensures (a + pending[..w]) + pending[w..] == bits
  {
    assert pending[..w] + pending[w..] == pending;
    assert (a + pending[..w]) + pending[w..] == a + (pending[..w] + pending[w..]);
  }

  /** A code that fits the width of its position extends codes that fit theirs. */
  lemma FitSnoc(codes: seq<nat>, code: nat)
    requires FitWidths(codes, 0) && code < Pow2(WidthAt(|codes|))
    ensures FitWidths(codes + [code], 0)
  {
    var more := codes + [code];
    forall j | 0 <= j < |more| ensures more[j] < Pow2(WidthAt(0 + j)) {
      if j < |codes| {
        assert more[j] == codes[j] && codes[j] < Pow2(WidthAt(0 + j));
      } else {
        assert j == |codes| && more[j] == code;
      }
    }
  }

  /** A code the decoder resolves extends the run of DecodeCodes by one step. */
  lemma DecodeMore(consumed: seq<nat>, code: nat, st: DecState, out: seq<Byte>, st': DecState, s: seq<Byte>)
    requires DecodeCodes(consumed) == Ok((st, out))
    requires DecodeStep(st, code) == Ok((st', s))
    ensures DecodeCodes(consumed + [code]) == Ok((st', out + s))
    ensures st'.codeSize == WidthAt(|consumed| + 1)
  {
    assert (consumed + [code])[..|consumed|] == consumed;
    DecodeWidth(consumed + [code]);
  }

  /** A code the decoder cannot resolve ends the run of DecodeCodes with its error. */
  lemma DecodeFails(consumed: seq<nat>, code: nat, st: DecState, out: seq<Byte>)
    requires DecodeCodes(consumed) == Ok((st, out))
    requires DecodeStep(st, code).Err?
    ensures DecodeCodes(consumed + [code]) == Err(DecodeStep(st, code).error)
  {
    assert (consumed + [code])[..|consumed|] == consumed;
  }

  /** readCode at the width of the next code, with what it means for the codes read. */
  method ReadNext(bp: BitPacker, w: nat, ghost consumed: seq<nat>, ghost bits: seq<bool>) returns (code: int)
    requires bp.Valid() && FitWidths(consumed, 0) && CodeBits(consumed, 0) + bp.Pending() == bits
    requires w == WidthAt(|consumed|)
    modifies bp
    ensures bp.Valid() && bp.output == old(bp.output)
    ensures code < 0 ==> old(bp.bitCount) < w && bp.bitCount == old(bp.bitCount) && bp.bitBuf == old(bp.bitBuf)
    ensures code >= 0 ==>
      bp.bitCount < old(bp.bitCount) &&
      FitWidths(consumed + [code], 0) && CodeBits(consumed + [code], 0) + bp.Pending() == bits
  {
    ghost var pending := bp.Pending();
    code := bp.ReadCode(w);
    if code >= 0 {
      ReadMore(consumed, code, pending, bits);
      FitSnoc(consumed, code);
    }
  }

  /** One pass of either read loop of execDecoding: read a code at the current width,
      decode it and append the result to the output. */
  method ReadAndDecode(bp: BitPacker, dec: LzwDecoder, ghost consumed: seq<nat>, ghost bits: seq<bool>)
    returns (status: Status, ghost consumed': seq<nat>)
    requires Sync(bp, dec, consumed, bits)
    modifies bp, dec
    ensures status == NoCode ==>
      old(bp.bitCount) < old(dec.codeSize) && consumed' == consumed && Sync(bp, dec, consumed', bits)
    ensures status == Decoded ==>
      bp.bitCount < old(bp.bitCount) && Sync(bp, dec, consumed', bits)
    ensures status.Failed? ==>
      DecodeCodes(consumed') == Err(status.error) && FitWidths(consumed', 0) &&
      CodeBits(consumed', 0) + bp.Pending() == bits
  {
    var code := ReadNext(bp, dec.codeSize, consumed, bits);
    if code < 0 {
      return NoCode, consumed;
    }
    consumed' := consumed + [code];
    ghost var st, out := dec.State(), bp.output;
    var decoded := dec.DecodeOne(code);
    if decoded.Err? {
      DecodeFails(consumed, code, st, out);
      return Failed(decoded.error), consumed';
    }
    ghost var bitsLeft := bp.Pending();
    bp.output := bp.output + decoded.value;
    assert bp.Valid() && bp.Pending() == bitsLeft;
    DecodeMore(consumed, code, st, out, dec.State(), decoded.value);
    status := Decoded;
  }

  /** Reading back the codes read so far, then whatever the rest of the bits hold. */
  lemma ReadBack(consumed: seq<nat>, pending: seq<bool>, rest: seq<bool>)
    requires FitWidths(consumed, 0)
    ensures ParseCodes(CodeBits(consumed, 0) + pending + rest, 0) ==
      consumed + ParseCodes(pending + rest, |consumed|)
  {
    var a := CodeBits(consumed, 0);
    assert a + pending + rest == a + (pending + rest);
    ParseCodeBits(consumed, 0, pending + rest, |consumed|);
  }

  /** Feeding one more byte keeps the codes read and the pending bits in step with the
      bytes fed. */
  lemma FeedMore(input: seq<Byte>, i: nat, consumed: seq<nat>, pending: seq<bool>)
    requires i < |input| && CodeBits(consumed, 0) + pending == BytesToBits(input[..i])
    ensures CodeBits(consumed, 0) + (pending + NatToBits(input[i], 8)) == BytesToBits(input[..i + 1])
  {
    assert input[..i + 1] == input[..i] + [input[i]];
    BytesToBitsSnoc(input[..i], input[i]);
    SeqAssoc(CodeBits(consumed, 0), pending, NatToBits(input[i], 8));
  }

  /** The inner loop of execDecoding: decode codes while a whole code is pending. */
  method DrainCodes(bp: BitPacker, dec: LzwDecoder, ghost consumed: seq<nat>, ghost bits: seq<bool>)
    returns (status: Status, ghost consumed': seq<nat>)
    requires Sync(bp, dec, consumed, bits)
    modifies bp, dec
    ensures status.Decoded? ==> bp.bitCount < dec.codeSize && Sync(bp, dec, consumed', bits)
    ensures !status.NoCode?
    ensures status.Failed? ==>
      DecodeCodes(consumed') == Err(status.error) && FitWidths(consumed', 0) &&
      CodeBits(consumed', 0) + bp.Pending() == bits
  {
    consumed' := consumed;
    status := Decoded;
    while bp.bitCount >= dec.codeSize
      invariant Sync(bp, dec, consumed', bits) && status.Decoded?
      decreases bp.bitCount
    {
      status, consumed' := ReadAndDecode(bp, dec, consumed', bits);
      if !status.Decoded? {
        return;
      }
    }
  }

  /** The final loop of execDecoding: decode codes until readCode finds too few bits. */
  method DrainRest(bp: BitPacker, dec: LzwDecoder, ghost consumed: seq<nat>, ghost bits: seq<bool>)
    returns (status: Status, ghost consumed': seq<nat>)
    requires Sync(bp, dec, consumed, bits)
    modifies bp, dec
    ensures status.NoCode? || status.Failed?
    ensures status.NoCode? ==> bp.bitCount < dec.codeSize && Sync(bp, dec, consumed', bits)
    ensures status.Failed? ==>
      DecodeCodes(consumed') == Err(status.error) && FitWidths(consumed', 0) &&
      CodeBits(consumed', 0) + bp.Pending() == bits
  {
    consumed' := consumed;
    while true
      invariant Sync(bp, dec, consumed', bits)
      decreases bp.bitCount
    {
      status, consumed' := ReadAndDecode(bp, dec, consumed', bits);
      if !status.Decoded? {
        return;
      }
    }
  }

  /** Once fewer bits are pending than the next code's width, the codes read are the
      whole parse of the input. */
  lemma ParsedAll(input: seq<Byte>, consumed: seq<nat>, pending: seq<bool>)
    requires FitWidths(consumed, 0) && CodeBits(consumed, 0) + pending == BytesToBits(input)
    requires |pending| < WidthAt(|consumed|)
    ensures ParseCodes(BytesToBits(input), 0) == consumed
  {
    ReadBack(consumed, pending, []);
    assert pending + [] == pending;
    assert CodeBits(consumed, 0) + pending + [] == BytesToBits(input);
  }

  /** execDecoding: the input as a whole byte sequence, the decoded bytes or the first
      code that cannot be resolved. */
  method ExecDecoding(input: seq<Byte>) returns (r: Result<seq<Byte>>)
    ensures r == DecodeStream(input)
  {
    var bp := new BitPacker();
    var dec := new LzwDecoder();
    DecodeWidth([]);
    assert bp.Pending() == [] && CodeBits([], 0) == [] && DecodeCodes([]) == Ok((dec.State(), bp.output));
    var status;
    ghost var consumed;
    status, consumed := DecodeInput(bp, dec, input);
    if status.Failed? {
      return Err(status.error);
    }
    status, consumed := DrainRest(bp, dec, consumed, BytesToBits(input));
    if status.Failed? {
      assert input[..|input|] == input;
      FailedInput(input, |input|, consumed, bp.Pending());
      return Err(status.error);
    }
    ParsedAll(input, consumed, bp.Pending());
    r := Ok(bp.output);
  }

  /** The outer loop of execDecoding: each input byte goes into the packer, and every code it
      completes is decoded at once. */
  method DecodeInput(bp: BitPacker, dec: LzwDecoder, input: seq<Byte>)
    returns (status: Status, ghost consumed: seq<nat>)
    requires Sync(bp, dec, [], [])
    modifies bp, dec
    ensures status.Failed? ==> DecodeStream(input) == Err(status.error)
    ensures !status.Failed? ==> Sync(bp, dec, consumed, BytesToBits(input)) && bp.bitCount < dec.codeSize
  {
    consumed, status := [], NoCode;
    assert BytesToBits(input[..0]) == [];
    assert bp.bitCount == |bp.Pending()| == 0;
    for i := 0 to |input|
      invariant Sync(bp, dec, consumed, BytesToBits(input[..i]))
      invariant bp.bitCount < dec.codeSize <= MAXBITS
    {
      FeedMore(input, i, consumed, bp.Pending());
      FeedByte(bp, input[i]);
      var drained;
      drained, consumed := DrainCodes(bp, dec, consumed, BytesToBits(input[..i + 1]));
      if drained.Failed? {
        FailedInput(input, i + 1, consumed, bp.Pending());
        return drained, consumed;
      }
    }
    assert input[..|input|] == input;
  }

  /** A code that fails after the first i bytes fails the whole input. */
  lemma FailedInput(input: seq<Byte>, i: nat, consumed: seq<nat>, pending: seq<bool>)
    requires i <= |input| && FitWidths(consumed, 0) && DecodeCodes(consumed).Err?
    requires CodeBits(consumed, 0) + pending == BytesToBits(input[..i])
    ensures DecodeStream(input) == Err(DecodeCodes(consumed).error)
  {
    BytesToBitsAppend(input[..i], input[i..]);
    assert input[..i] + input[i..] == input;
    ReadBack(consumed, pending, BytesToBits(input[i..]));
    ErrorPrefix(consumed, ParseCodes(pending + BytesToBits(input[i..]), |consumed|));
  }

  /** The unit test of reconstructString: entry 256 = {65, 66} stands for "AB". */
  method ReconstructExample() returns (r: seq<Byte>)
    ensures r == [65, 66]
  {
    var dict, lookup := InitDictionary();
    AppendValid(dict, 65, 66);
    dict := dict + [Entry(65, 66)];
    ExpandRoot(dict, 65);
    r := ReconstructString(dict, 256);
  }

  /** "AAA" is encoded as [65, 256]: the second code is the entry the encoder added
      just before writing it, which the decoder resolves as "A" + "A"[0]. */
  lemma KwKwKExample()
    ensures DecodeCodes([65, 256]) == Ok((DecState(SeedTable() + [Entry(65, 65)], 257, INIT_BITS, 256, [65, 65]),
                                          [65, 65, 65]))
  {
    var st0 := DecInit();
    DecInitInv();
    ExpandRoot(SeedTable(), 65);
    assert DecodeCodes([65]) == Ok((st0.(oldCode := 65, oldString := [65]), [65])) by {
      assert [65][..0] == [];
    }
    var st1 := st0.(oldCode := 65, oldString := [65]);
    MaxCodeValue();
    assert |st1.dict| == 256 && st1.nextCode == 256;
    assert Grow(st1, 256, [65, 65]) == DecState(SeedTable() + [Entry(65, 65)], 257, INIT_BITS, 256, [65, 65]);
    assert DecInv(st1);
    assert st1.oldString + [st1.oldString[0]] == [65, 65];
    assert DecodeStep(st1, 256) == Ok((Grow(st1, 256, [65, 65]), [65, 65]));
    DecodeMore([65], 256, st1, [65], Grow(st1, 256, [65, 65]), [65, 65]);
    assert [65] + [256] == [65, 256] && [65] + [65, 65] == [65, 65, 65];
  }
}
