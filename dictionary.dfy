/** The LZW dictionary: an arena of {prefix, ch} entries indexed by code, and the
    reverse map from a (prefix, ch) key to the code of that entry. */
module Dictionary {
  import opened Bits

  /** Widest code in bits, and the cap on the number of dictionary entries. */
  const MAXBITS: nat := 20
  const MAXCODE: nat := 1048575

  /** Codes 0..255 stand for single bytes; dynamic codes start here, at width 9. */
  const FIRST_CODE: nat := 256
  const INIT_BITS: nat := 9

  lemma MaxCodeValue()
    ensures MAXCODE == Pow2(MAXBITS) - 1
    ensures Pow2(19) == 524288 && Pow2(9) == 512 && Pow2(8) == 256
  {
    assert Pow2(4) == 16;
    assert Pow2(8) == 256;
    assert Pow2(12) == 4096;
    assert Pow2(16) == 65536;
    assert Pow2(19) == 524288;
  }

  /** The string of code `prefix` (none when -1) followed by the byte `ch`. */
  datatype Entry = Entry(prefix: int, ch: Byte)

  /** A reverse-map key; `ch` is an int as in the source's key type. */
  datatype Key = Key(prefix: int, ch: int)

  /** The key's equality functor: field-wise comparison, which is structural equality. */
  predicate KeyEq(a: Key, b: Key)
    ensures KeyEq(a, b) <==> a == b
  {
    a.prefix == b.prefix && a.ch == b.ch
  }

  function KeyOf(e: Entry): Key
  {
    Key(e.prefix, e.ch)
  }

  /** The 256 roots `{-1, i}`. */
  ghost predicate Rooted(dict: seq<Entry>)
  {
    |dict| >= FIRST_CODE && forall i :: 0 <= i < FIRST_CODE ==> dict[i] == Entry(-1, i)
  }

  /** Every prefix is -1 or an earlier code, so prefix chains terminate. */
  ghost predicate Acyclic(dict: seq<Entry>)
  {
    forall i :: 0 <= i < |dict| ==> dict[i].prefix == -1 || 0 <= dict[i].prefix < i
  }

  /** A table as the codec builds it: seeded roots, and every later entry extends an earlier code. */
  ghost predicate ValidTable(dict: seq<Entry>)
  {
    Rooted(dict) && Acyclic(dict) &&
    forall i :: FIRST_CODE <= i < |dict| ==> dict[i].prefix != -1
  }

  /** The table and the reverse map describe the same entries, in both directions. */
  ghost predicate Agree(dict: seq<Entry>, lookup: map<Key, int>)
  {
    (forall k :: k in lookup ==> 0 <= lookup[k] < |dict| && KeyOf(dict[lookup[k]]) == k) &&
    (forall i :: 0 <= i < |dict| ==> KeyOf(dict[i]) in lookup && lookup[KeyOf(dict[i])] == i)
  }

  ghost predicate Valid(dict: seq<Entry>, lookup: map<Key, int>)
  {
    ValidTable(dict) && Agree(dict, lookup)
  }

  /** The seeded dictionary as values. */
  function SeedTable(): (dict: seq<Entry>)
  {
    seq(FIRST_CODE, i requires 0 <= i < FIRST_CODE => Entry(-1, i))
  }

  function SeedLookup(): (lookup: map<Key, int>)
  {
    map i | 0 <= i < FIRST_CODE :: Key(-1, i) := i
  }

  /** initDictionary: a table of 256 roots and a reverse map with their 256 keys. */
  method InitDictionary() returns (dict: seq<Entry>, lookup: map<Key, int>)
    ensures |dict| == 256 && |lookup| == 256
    ensures forall i :: 0 <= i < 256 ==> dict[i] == Entry(-1, i)
    ensures forall i :: 0 <= i < 256 ==> Key(-1, i) in lookup && lookup[Key(-1, i)] == i
    ensures forall k :: k in lookup ==> k.prefix == -1 && 0 <= k.ch < 256
    ensures Valid(dict, lookup)
    ensures dict == SeedTable() && lookup == SeedLookup()
  {
    // std::vector<DictionaryEntry> dict(256) value-initialises every entry to {0, 0}
    dict := seq(256, _ => Entry(0, 0));
    lookup := map[];
    for i := 0 to 256
      invariant |dict| == 256
      invariant forall j :: 0 <= j < i ==> dict[j] == Entry(-1, j)
      invariant forall j :: i <= j < 256 ==> dict[j] == Entry(0, 0)
      invariant forall k :: k in lookup <==> k.prefix == -1 && 0 <= k.ch < i
      invariant forall k :: k in lookup ==> lookup[k] == k.ch
    {
      dict := dict[i := Entry(-1, i)];
      lookup := lookup[Key(-1, i) := i];
    }
    assert dict == SeedTable();
    assert lookup == SeedLookup() by {
      assert forall k :: k in lookup ==> k == Key(-1, k.ch) && lookup[k] == k.ch;
      forall k | k in SeedLookup() ensures k in lookup {
        var i :| 0 <= i < FIRST_CODE && k == Key(-1, i);
      }
    }
    SeedValid();
  }

  /** The seeded table and reverse map are a valid dictionary, with exactly 256 keys. */
  lemma SeedValid()
    ensures Valid(SeedTable(), SeedLookup())
    ensures |SeedLookup()| == FIRST_CODE
  {
    var dict, lookup := SeedTable(), SeedLookup();
    assert forall k :: k in lookup ==> KeyOf(dict[lookup[k]]) == k;
    assert forall i :: 0 <= i < |dict| ==> KeyOf(dict[i]) == Key(-1, i);
    var keys := set i | 0 <= i < FIRST_CODE :: Key(-1, i);
    assert lookup.Keys == keys;
    KeysCardinality(FIRST_CODE);
  }

  lemma {:induction false} KeysCardinality(n: nat)
    ensures |set i | 0 <= i < n :: Key(-1, i)| == n
  {
    if n > 0 {
      KeysCardinality(n - 1);
      var smaller := set i | 0 <= i < n - 1 :: Key(-1, i);
      assert (set i | 0 <= i < n :: Key(-1, i)) == smaller + {Key(-1, n - 1)};
    }
  }

  /** The byte string that code `code` stands for: its prefix chain read from the root
      (the empty string for the "no prefix" value -1). */
  function Expand(dict: seq<Entry>, code: int): (s: seq<Byte>)
    requires Acyclic(dict) && -1 <= code < |dict|
    ensures code >= 0 ==> |s| > 0
    decreases code + 1
  {
    if code == -1 then [] else Expand(dict, dict[code].prefix) + [dict[code].ch]
  }

  lemma ExpandRoot(dict: seq<Entry>, code: int)
    requires ValidTable(dict) && 0 <= code < FIRST_CODE
    ensures Expand(dict, code) == [code]
  {
  }

  /** A dynamic code stands for its prefix's string plus one byte, with the prefix's first byte. */
  lemma ExpandExtends(dict: seq<Entry>, code: int)
    requires ValidTable(dict) && FIRST_CODE <= code < |dict|
    ensures Expand(dict, code) == Expand(dict, dict[code].prefix) + [dict[code].ch]
    ensures Expand(dict, code)[0] == Expand(dict, dict[code].prefix)[0]
  {
  }

  /** Entries are only appended, so a code means the same string in every later table. */
  lemma {:induction false} ExpandPrefix(dict: seq<Entry>, n: nat, code: int)
    requires Acyclic(dict) && n <= |dict| && -1 <= code < n
    ensures Acyclic(dict[..n])
    ensures Expand(dict[..n], code) == Expand(dict, code)
    decreases code + 1
  {
    assert Acyclic(dict[..n]) by {
      forall i | 0 <= i < n ensures dict[..n][i] == dict[i] { }
    }
    if code != -1 {
      ExpandPrefix(dict, n, dict[code].prefix);
    }
  }

  lemma ExpandAppend(dict: seq<Entry>, e: Entry, code: int)
    requires Acyclic(dict) && Acyclic(dict + [e]) && -1 <= code < |dict|
    ensures Expand(dict + [e], code) == Expand(dict, code)
  {
    assert (dict + [e])[..|dict|] == dict;
    ExpandPrefix(dict + [e], |dict|, code);
  }

  /** Adding entry e at index |dict| and its key to the reverse map keeps them in agreement,
      provided the key was not there yet. */
  lemma AppendAgree(dict: seq<Entry>, lookup: map<Key, int>, e: Entry)
    requires Agree(dict, lookup) && KeyOf(e) !in lookup
    ensures Agree(dict + [e], lookup[KeyOf(e) := |dict|])
  {
    var dict', lookup' := dict + [e], lookup[KeyOf(e) := |dict|];
    forall i | 0 <= i < |dict'|
      ensures KeyOf(dict'[i]) in lookup' && lookup'[KeyOf(dict'[i])] == i
    {
      if i < |dict| {
        assert KeyOf(dict[i]) in lookup;
      }
    }
  }

  /** Appending an entry whose prefix is an existing code keeps the table valid. */
  lemma AppendValid(dict: seq<Entry>, p: int, c: Byte)
    requires ValidTable(dict) && 0 <= p < |dict|
    ensures ValidTable(dict + [Entry(p, c)])
  {
  }
}
