/** Long file names: cut into directory entries of 13 characters, last fragment first, and put together again. */
module LongNames {
  import opened Bits
  import opened CStrings

  const MAX_ENTRIES := 20
  const ENTRY_LENGTH := 13
  const DIR_ENTRY_SIZE := 32

  /** Where the characters of an entry are. */
  const NAME_INDEXES: seq<nat> := [1, 3, 5, 7, 9, 0x0E, 0x10, 0x12, 0x14, 0x16, 0x18, 0x1C, 0x1E]

  function NameIndex(i: nat): (at: nat)
    requires i < ENTRY_LENGTH
    ensures at + 1 < DIR_ENTRY_SIZE && at !in {0, 11, 12, 13, 26, 27} && at + 1 !in {11, 12, 13, 26, 27}
  {
    NAME_INDEXES[i]
  }

  lemma NamesApart(i: nat)
    requires i < ENTRY_LENGTH
    ensures forall j :: 0 <= j < ENTRY_LENGTH && j != i ==>
              NameIndex(j) != NameIndex(i) && NameIndex(j) + 1 != NameIndex(i) && NameIndex(j) != NameIndex(i) + 1
  {
  }

  /** The number of entries for a name. */
  function EntriesRequired(name: seq<byte>): (n: nat)
    ensures |name| <= ENTRY_LENGTH * n < |name| + ENTRY_LENGTH
  {
    if |name| != 0 then (|name| + ENTRY_LENGTH - 1) / ENTRY_LENGTH else 0
  }

  /** Character `k` of the entries: the name, a zero if there is room for it, and 0xFF behind. */
  function CharAt(name: seq<byte>, k: nat): byte {
    if k < |name| then name[k] else if k == |name| then 0 else 0xFF
  }

  /** What entry number `entry` of a name must hold. */
  predicate IsEntry(buffer: seq<byte>, name: seq<byte>, entry: nat, sfnChk: byte) {
    && |buffer| == DIR_ENTRY_SIZE
    && buffer[0] == (if entry + 1 == EntriesRequired(name) then 0x40 else 0) + entry + 1
    && buffer[11] == 0x0F && buffer[13] == sfnChk && buffer[12] == buffer[26] == buffer[27] == 0
    && forall i :: 0 <= i < ENTRY_LENGTH ==>
         && buffer[NameIndex(i)] == CharAt(name, entry * ENTRY_LENGTH + i)
         && buffer[NameIndex(i) + 1] == if entry * ENTRY_LENGTH + i > |name| then 0xFF else 0
  }

  lemma Places()
    ensures NameIndex(0) == 1 && NameIndex(1) == 3 && NameIndex(2) == 5 && NameIndex(3) == 7 && NameIndex(4) == 9
    ensures NameIndex(5) == 14 && NameIndex(6) == 16 && NameIndex(7) == 18 && NameIndex(8) == 20
    ensures NameIndex(9) == 22 && NameIndex(10) == 24 && NameIndex(11) == 28 && NameIndex(12) == 30
  {
  }

  lemma EntryChars(buffer: seq<byte>, name: seq<byte>, entry: nat, sfnChk: byte)
    requires IsEntry(buffer, name, entry, sfnChk) && entry < 0x20
    ensures |buffer| == DIR_ENTRY_SIZE && buffer[0] % 0x20 == (entry + 1) % 0x20
    ensures forall i :: 0 <= i < ENTRY_LENGTH ==> buffer[NameIndex(i)] == CharAt(name, entry * ENTRY_LENGTH + i)
  {
  }

  /** The 32 bytes of the one entry of a name of two characters. */
  ghost predicate TwoIn(buffer: seq<byte>, name: seq<byte>, sfnChk: byte)
    requires |name| == 2
  {
    && |buffer| == 32
    && buffer[0] == 0x41 && buffer[1] == name[0] && buffer[3] == name[1] && buffer[11] == 0x0F && buffer[13] == sfnChk
    && (forall i :: i in {2, 4, 5, 6, 12, 26, 27} ==> buffer[i] == 0)
    && forall i :: 7 <= i < 11 || 14 <= i < 26 || 28 <= i < 32 ==> buffer[i] == 0xFF
  }

  lemma EntryOfTwo(buffer: seq<byte>, name: seq<byte>, sfnChk: byte)
    requires |name| == 2
    ensures IsEntry(buffer, name, 0, sfnChk) <==> TwoIn(buffer, name, sfnChk)
  {
    assert EntriesRequired(name) == 1;
    hide IsEntry, EntriesRequired, TwoIn;
    if IsEntry(buffer, name, 0, sfnChk) { TwoRead(buffer, name, sfnChk); }
    if TwoIn(buffer, name, sfnChk) { TwoWritten(buffer, name, sfnChk); }
  }

  lemma TwoRead(buffer: seq<byte>, name: seq<byte>, sfnChk: byte)
    requires |name| == 2 && EntriesRequired(name) == 1 && IsEntry(buffer, name, 0, sfnChk)
    ensures TwoIn(buffer, name, sfnChk)
  {
    Places();
    hide NameIndex, EntriesRequired;
  }

  lemma TwoWritten(buffer: seq<byte>, name: seq<byte>, sfnChk: byte)
    requires |name| == 2 && EntriesRequired(name) == 1 && TwoIn(buffer, name, sfnChk)
    ensures IsEntry(buffer, name, 0, sfnChk)
  {
    Places();
    hide NameIndex, EntriesRequired;
  }

  method FilenameToLfn(name: seq<byte>, buffer: array<byte>, entry: nat, sfnChk: byte)
    requires buffer.Length == DIR_ENTRY_SIZE && entry < EntriesRequired(name) && |name| <= ENTRY_LENGTH * MAX_ENTRIES
    modifies buffer
    ensures IsEntry(buffer[..], name, entry, sfnChk)
  {
    hide NameIndex;
    var start := entry * ENTRY_LENGTH;
    forall i | 0 <= i < DIR_ENTRY_SIZE { buffer[i] := 0; }
    buffer[0] := if EntriesRequired(name) - 1 == entry then 0x40 + entry + 1 else entry + 1;
    buffer[11] := 0x0F;
    buffer[13] := sfnChk;
    for i := 0 to ENTRY_LENGTH
      invariant buffer[0] == if EntriesRequired(name) - 1 == entry then 0x40 + entry + 1 else entry + 1
      invariant buffer[11] == 0x0F && buffer[13] == sfnChk && buffer[12] == buffer[26] == buffer[27] == 0
      invariant forall j :: 0 <= j < i ==> buffer[NameIndex(j)] == CharAt(name, start + j)
      invariant forall j :: 0 <= j < ENTRY_LENGTH ==>
                  buffer[NameIndex(j) + 1] == if j < i && start + j > |name| then 0xFF else 0
    {
      NamesApart(i);
      var at := NameIndex(i);
      if start + i < |name| {
        buffer[at] := name[start + i];
      } else if start + i == |name| {
        buffer[at] := 0;
      } else {
        buffer[at] := 0xFF;
        buffer[at + 1] := 0xFF;
      }
    }
  }

  /** Fragments of a name as they are read, and how many there are. */
  class LfnCache {
    /** 20 strings of 13 characters, one behind the other, and a byte for the last terminator. */
    var strings: array<byte>
    var last: byte
    var noOfStrings: nat

    predicate Valid()
      reads this
    {
      strings.Length == ENTRY_LENGTH * MAX_ENTRIES && noOfStrings <= MAX_ENTRIES
    }

    constructor ()
      ensures Valid() && fresh(strings) && noOfStrings == 0
    {
      strings := new byte[ENTRY_LENGTH * MAX_ENTRIES];
      last, noOfStrings := 0, 0;
    }

    /** Takes one entry in; 0xFF becomes a space. An entry number of 0 or above 20 is ignored. */
    method CacheEntry(entry: seq<byte>)
      requires Valid() && |entry| == DIR_ENTRY_SIZE
      modifies this`noOfStrings, strings
      ensures Valid()
      ensures var index := entry[0] % 0x20;
              if index == 0 || index > MAX_ENTRIES then
                noOfStrings == old(noOfStrings) && strings[..] == old(strings[..])
              else
                && noOfStrings == (if old(noOfStrings) == 0 then index else old(noOfStrings))
                && forall k :: 0 <= k < strings.Length ==>
                     strings[k] == if ENTRY_LENGTH * (index - 1) <= k < ENTRY_LENGTH * index
                                   then Spaced(entry[NameIndex(k - ENTRY_LENGTH * (index - 1))]) else old(strings[k])
    {
      hide NameIndex, Spaced;
      var index := entry[0] % 0x20;
      if index > MAX_ENTRIES || index == 0 { return; }
      if noOfStrings == 0 { noOfStrings := index; }
      var base := ENTRY_LENGTH * (index - 1);
      for i := 0 to ENTRY_LENGTH
        modifies strings
        invariant forall k :: 0 <= k < strings.Length ==>
                    strings[k] == if base <= k < base + i then entry[NameIndex(k - base)] else old(strings[k])
      {
        strings[base + i] := entry[NameIndex(i)];
      }
      for i := 0 to ENTRY_LENGTH
        modifies strings
        invariant forall k :: 0 <= k < strings.Length ==>
                    strings[k] == if base <= k < base + i then Spaced(entry[NameIndex(k - base)])
                                  else if base <= k < base + ENTRY_LENGTH then entry[NameIndex(k - base)]
                                  else old(strings[k])
      {
        SpacedIs(strings[base + i]);
        if strings[base + i] == 0xFF { strings[base + i] := 0x20; }
      }
    }

    /** The name put together, with a zero behind the last fragment. */
    method Get() returns (name: seq<byte>)
      requires Valid()
      modifies strings, this`last
      ensures name == CString(strings[..] + [last])
      ensures noOfStrings == MAX_ENTRIES ==> last == 0 && strings[..] == old(strings[..])
      ensures noOfStrings < MAX_ENTRIES ==>
                last == old(last) && strings[..] == old(strings[..])[ENTRY_LENGTH * noOfStrings := 0]
    {
      if noOfStrings == MAX_ENTRIES {
        last := 0;
      } else if noOfStrings != 0 {
        strings[ENTRY_LENGTH * noOfStrings] := 0;
      } else {
        strings[0] := 0;
      }
      name := CString(strings[..] + [last]);
    }
  }

  function Spaced(c: byte): byte {
    if c == 0xFF then 0x20 else c
  }

  lemma SpacedIs(c: byte)
    ensures Spaced(c) == if c == 0xFF then 0x20 else c
  {
  }

  /** One entry of a name written and read. */
  method PassEntry(name: seq<byte>, sfnChk: byte, entry: nat, cache: LfnCache)
    requires entry < EntriesRequired(name) && |name| <= ENTRY_LENGTH * MAX_ENTRIES && cache.Valid()
    modifies cache`noOfStrings, cache.strings
    ensures cache.Valid()
    ensures cache.noOfStrings == if old(cache.noOfStrings) == 0 then entry + 1 else old(cache.noOfStrings)
    ensures forall k :: 0 <= k < cache.strings.Length ==>
              cache.strings[k] == if ENTRY_LENGTH * entry <= k < ENTRY_LENGTH * (entry + 1)
                                  then Spaced(CharAt(name, k)) else old(cache.strings[k])
  {
    hide IsEntry, NameIndex, CharAt, Spaced;
    var buffer := new byte[DIR_ENTRY_SIZE];
    FilenameToLfn(name, buffer, entry, sfnChk);
    ghost var b := buffer[..];
    EntryChars(b, name, entry, sfnChk);
    cache.CacheEntry(buffer[..]);
    forall k | ENTRY_LENGTH * entry <= k < ENTRY_LENGTH * (entry + 1) && k < cache.strings.Length
      ensures cache.strings[k] == Spaced(CharAt(name, k))
    {
      var i := k - ENTRY_LENGTH * entry;
      assert b[NameIndex(i)] == CharAt(name, entry * ENTRY_LENGTH + i);
    }
  }

  /** The entries of a name in directory order, read back through the cache, give the name. */
  method StoreAndRead(name: seq<byte>, sfnChk: byte, cache: LfnCache) returns (read: seq<byte>)
    requires 1 <= |name| <= ENTRY_LENGTH * MAX_ENTRIES && 0 !in name && 0xFF !in name
    requires cache.Valid() && cache.noOfStrings == 0
    modifies cache, cache.strings
    ensures read == name
  {
    var entryCount := EntriesRequired(name);
    while entryCount > 0
      invariant 0 <= entryCount <= EntriesRequired(name) && cache.Valid() && cache.strings == old(cache.strings)
      invariant cache.noOfStrings == if entryCount < EntriesRequired(name) then EntriesRequired(name) else 0
      invariant forall k :: ENTRY_LENGTH * entryCount <= k < ENTRY_LENGTH * EntriesRequired(name) ==>
                  cache.strings[k] == Spaced(CharAt(name, k))
    {
      entryCount := entryCount - 1;
      PassEntry(name, sfnChk, entryCount, cache);
    }
    ghost var n, s := EntriesRequired(name), cache.strings[..];
    forall k | 0 <= k < |name| ensures s[k] == name[k] { assert name[k] in name; }
    read := cache.Get();
    CStringIs(cache.strings[..] + [cache.last], name);
  }
}
