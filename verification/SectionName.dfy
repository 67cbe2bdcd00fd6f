/**
 src/common/lttng-elf.c:347-415: finding a section's name in the string table of an
 ELF file, read in chunks.
 */
module SectionName {
  import opened Bytes
  import opened Wrappers

  const BUF_LEN := 4096

  /** The string at `offset` of the table: up to the first NUL, if there is one before the end. */
  function NameAt(table: seq<byte>, offset: nat): (r: Option<cstring>)
    requires offset <= |table|
    ensures r.Some? <==> 0 in table[offset..]
    ensures r.Some? ==>
              var n := |r.value|;
              offset + n < |table| && r.value == table[offset..offset + n] && table[offset + n] == 0
  {
    var n := StrnLen(table[offset..]);
    assert table[offset..offset + n] == table[offset..][..n];
    if offset + n < |table| then
      assert table[offset..][n] == 0;
      Some(table[offset..offset + n])
    else
      assert table[offset..][..n] == table[offset..];
      None
  }

  /**
   What the file gives: `given(k)` is how much the k-th read would return if it were
   asked for that much, 0 or less being the end of the file or an error.
   */
  type Reads = nat -> int

  /** No NUL in `s` between `i` and `j`. */
  predicate Clear(s: seq<byte>, i: nat, j: nat)
    requires i <= j <= |s|
  {
    forall k | i <= k < j :: s[k] != 0
  }

  lemma NameIs(table: seq<byte>, offset: nat, n: nat)
    requires offset + n < |table| && Clear(table, offset, offset + n) && table[offset + n] == 0
    ensures NameAt(table, offset).Some? && |NameAt(table, offset).value| == n
  {
    assert 0 !in table[offset..][..n];
    StrnLenIs(table[offset..], n);
    assert table[offset..][n] == 0;
  }

  /** The length of the name at `offset`, if it ends within the table and no read fails. */
  method NameLength(table: seq<byte>, offset: nat, given: Reads) returns (length: Option<nat>)
    requires offset <= |table|
    ensures length.Some? ==> NameAt(table, offset).Some? && |NameAt(table, offset).value| == length.value
    ensures (forall k :: given(k) > 0) ==> (length.Some? <==> NameAt(table, offset).Some?)
  {
    var nameLength, toRead, calls := 0, |table| - offset, 0;
    while true
      invariant nameLength >= 0 && toRead >= 0 && calls >= 0 && offset + nameLength + toRead == |table|
      invariant Clear(table, offset, offset + nameLength)
      decreases toRead
    {
      if toRead == 0 {
        return None;
      }
      var count := if toRead < BUF_LEN then toRead else BUF_LEN;
      var readLen := if given(calls) < count then given(calls) else count;
      calls := calls + 1;
      if readLen <= 0 {
        return None;
      }
      var buf := table[offset + nameLength..offset + nameLength + readLen];
      var i := 0;
      while i < readLen
        invariant 0 <= i <= readLen && Clear(table, offset, offset + nameLength + i)
      {
        if buf[i] == 0 {
          NameIs(table, offset, nameLength + i);
          return Some(nameLength + i);
        }
        i := i + 1;
      }
      nameLength := nameLength + readLen;
      toRead := toRead - readLen;
    }
  }

  /** lttng_elf_get_section_name; `whole` says whether the last read got all it asked for. */
  method GetSectionName(table: seq<byte>, offset: nat, given: Reads, whole: bool) returns (name: Option<cstring>)
    ensures name.Some? ==> offset < |table| && name == NameAt(table, offset)
    ensures whole && (forall k :: given(k) > 0) ==>
              name == if offset < |table| then NameAt(table, offset) else None
  {
    if offset >= |table| {
      return None;
    }
    var length := NameLength(table, offset, given);
    if length.None? || !whole {
      return None;
    }
    name := Some(table[offset..offset + length.value]);
  }
}
