/** What a code sequence means with respect to a dictionary: the string it spells,
    and the relation between a dictionary, a code sequence and the input string
    that both the encoder and the decoder maintain. */
module Coding {
  import opened Bits
  import opened Dictionary
  import opened CodeStream

  /** How many entries the table holds once n codes have gone by: the decoder adds
      one entry per code after the first, the encoder one per code it has emitted,
      and neither goes beyond MAXCODE entries. */
  function TableSize(n: nat): (size: nat)
    ensures FIRST_CODE <= size <= MAXCODE
  {
    if n == 0 then FIRST_CODE else Min(FIRST_CODE + n - 1, MAXCODE)
  }

  ghost predicate InBounds(dict: seq<Entry>, codes: seq<nat>)
  {
    forall j :: 0 <= j < |codes| ==> codes[j] < |dict|
  }

  /** The concatenation of the strings of `codes`. */
  ghost function Flatten(dict: seq<Entry>, codes: seq<nat>): seq<Byte>
    requires Acyclic(dict) && InBounds(dict, codes)
  {
    if codes == [] then []
    else Flatten(dict, codes[..|codes| - 1]) + Expand(dict, codes[|codes| - 1])
  }

  lemma FlattenSnoc(dict: seq<Entry>, codes: seq<nat>, c: nat)
    requires Acyclic(dict) && InBounds(dict, codes) && c < |dict|
    ensures InBounds(dict, codes + [c])
    ensures Flatten(dict, codes + [c]) == Flatten(dict, codes) + Expand(dict, c)
  {
    assert (codes + [c])[..|codes|] == codes;
  }

  /** Growing the table changes the meaning of no code that was already in it. */
  lemma {:induction false} FlattenAppend(dict: seq<Entry>, e: Entry, codes: seq<nat>)
    requires Acyclic(dict) && Acyclic(dict + [e]) && InBounds(dict, codes)
    ensures InBounds(dict + [e], codes)
    ensures Flatten(dict + [e], codes) == Flatten(dict, codes)
  {
    if codes != [] {
      var init := codes[..|codes| - 1];
      FlattenAppend(dict, e, init);
      ExpandAppend(dict, e, codes[|codes| - 1]);
    }
  }

  /** The LZW relation between a table `dict`, a code sequence `codes` and the string `s`:
      - `dict` is a valid table of TableSize(|codes|) entries;
      - code j is below the table size at the time it was written, `Min(256 + j, MAXCODE)`;
      - the codes spell `s`;
      - entry 256 + j (while there is room for it) is code j extended by the first byte
        of code j + 1, which is the entry both sides add after code j. */
  ghost predicate Parses(dict: seq<Entry>, codes: seq<nat>, s: seq<Byte>)
  {
    ValidTable(dict) &&
    |dict| == TableSize(|codes|) &&
    (forall j :: 0 <= j < |codes| ==> codes[j] < Min(FIRST_CODE + j, MAXCODE)) &&
    InBounds(dict, codes) &&
    Flatten(dict, codes) == s &&
    forall j :: 0 <= j < |codes| - 1 && FIRST_CODE + j < MAXCODE ==> Link(dict, codes, j)
  }

  /** Entry 256 + j is code j followed by the first byte of code j + 1. */
  ghost predicate Link(dict: seq<Entry>, codes: seq<nat>, j: nat)
  {
    Acyclic(dict) && j + 1 < |codes| && FIRST_CODE + j < |dict| && codes[j + 1] < |dict| &&
    dict[FIRST_CODE + j] == Entry(codes[j], Expand(dict, codes[j + 1])[0])
  }

  /** The codes of a parse fit the widths the code stream gives them. */
  lemma ParsesFit(dict: seq<Entry>, codes: seq<nat>, s: seq<Byte>)
    requires Parses(dict, codes, s)
    ensures FitWidths(codes, 0)
  {
    forall j | 0 <= j < |codes| ensures codes[j] < Pow2(WidthAt(0 + j)) {
      CodeFitsAt(j, codes[j]);
    }
  }

  /** The empty string is parsed by no codes over the seeded table. */
  lemma ParsesEmpty()
    ensures Parses(SeedTable(), [], [])
  {
    SeedValid();
  }

  /** The first byte: a one-code parse over the seeded table. */
  lemma ParsesFirst(dict: seq<Entry>, q: nat, c: Byte)
    requires ValidTable(dict) && |dict| == FIRST_CODE && q < FIRST_CODE && Expand(dict, q) == [c]
    ensures Parses(dict, [q], [c])
  {
    assert [q][..0] == [];
  }

  /** A longer match replaces the last code: if q spells the last code's string plus c,
      swapping q in for the last code parses s + [c]. */
  lemma ParsesExtendLast(dict: seq<Entry>, codes: seq<nat>, s: seq<Byte>, q: nat, c: Byte)
    requires Parses(dict, codes, s) && |codes| >= 1
    requires q < Min(FIRST_CODE + |codes| - 1, MAXCODE)
    requires Expand(dict, q) == Expand(dict, codes[|codes| - 1]) + [c]
    ensures InBounds(dict, codes[..|codes| - 1] + [q])
    ensures Parses(dict, codes[..|codes| - 1] + [q], s + [c])
  {
    var n := |codes|;
    var init := codes[..n - 1];
    var codes' := init + [q];
    FlattenSnoc(dict, init, q);
    assert Flatten(dict, codes) == Flatten(dict, init) + Expand(dict, codes[n - 1]);
    assert forall j :: 0 <= j < n - 1 ==> codes'[j] == codes[j];
    forall j | 0 <= j < n - 1 && FIRST_CODE + j < MAXCODE
      ensures Link(dict, codes', j)
    {
      assert Link(dict, codes, j);
      if j + 1 == n - 1 {
        assert Expand(dict, q)[0] == Expand(dict, codes[n - 1])[0];
      }
    }
  }

  /** A miss while there is room: the entry {last code, c} goes in at index |dict|, and the
      single byte c becomes the next code. */
  lemma ParsesNewCode(dict: seq<Entry>, codes: seq<nat>, s: seq<Byte>, c: Byte)
    requires Parses(dict, codes, s) && |codes| >= 1 && |dict| < MAXCODE
    ensures |dict| == FIRST_CODE + |codes| - 1
    ensures Parses(dict + [Entry(codes[|codes| - 1], c)], codes + [c], s + [c])
  {
    var n := |codes|;
    var e := Entry(codes[n - 1], c);
    var dict' := dict + [e];
    var codes' := codes + [c];
    AppendValid(dict, codes[n - 1], c);
    FlattenAppend(dict, e, codes);
    ExpandAppend(dict, e, c);
    FlattenSnoc(dict', codes, c);
    forall j | 0 <= j < n ensures Expand(dict', codes[j]) == Expand(dict, codes[j]) {
      ExpandAppend(dict, e, codes[j]);
    }
    forall j | 0 <= j < n && FIRST_CODE + j < MAXCODE
      ensures Link(dict', codes', j)
    {
      if j < n - 1 {
        assert Link(dict, codes, j);
        assert codes'[j] == codes[j] && codes'[j + 1] == codes[j + 1];
      } else {
        assert codes'[j] == codes[n - 1] && codes'[j + 1] == c;
        assert dict'[FIRST_CODE + j] == e;
      }
    }
  }

  /** A miss once the table is full: no entry is added, and c becomes the next code. */
  lemma ParsesFullCode(dict: seq<Entry>, codes: seq<nat>, s: seq<Byte>, c: Byte)
    requires Parses(dict, codes, s) && |codes| >= 1 && |dict| >= MAXCODE
    ensures Parses(dict, codes + [c], s + [c])
  {
    var n := |codes|;
    var codes' := codes + [c];
    FlattenSnoc(dict, codes, c);
    forall j | 0 <= j < n && FIRST_CODE + j < MAXCODE
      ensures Link(dict, codes', j)
    {
      assert Link(dict, codes, j);
      assert codes'[j] == codes[j] && codes'[j + 1] == codes[j + 1];
    }
  }
}
