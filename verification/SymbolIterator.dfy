/**
 src/common/filter.c:17-85: iterating over the relocation table that follows the
 instructions of a filter bytecode.
 */
module SymbolIterators {
  import opened Bytes
  import opened Wire
  import opened Wrappers

  /** One entry of the table: where the symbol is used, and its name. */
  datatype Entry = Entry(position: nat, name: cstring)

  function EntryBytes(e: Entry): seq<byte> {
    Le(2, e.position) + Terminated(e.name)
  }

  /** Two bytes, least significant first, then the name and its terminator. */
  lemma EntryOnTheWire(e: Entry)
    requires e.position < 0x1_0000
    ensures EntryBytes(e) == [e.position % 256, e.position / 256] + e.name + [0]
  {
    var lo: byte, hi: byte := e.position % 256, e.position / 256;
    assert Le(1, e.position / 256) == [hi] + Le(0, 0);
    assert Le(2, e.position) == [lo, hi];
  }

  function Table(es: seq<Entry>): seq<byte> {
    if es == [] then [] else EntryBytes(es[0]) + Table(es[1..])
  }

  /** struct lttng_bytecode: `data` holds the instructions and, from `relocTableOffset` on, the table. */
  datatype Bytecode = Bytecode(data: seq<byte>, relocTableOffset: nat)

  class SymbolIterator {
    const bytecode: seq<byte>
    var offset: nat
    const len: nat

    /** The iterator is on the boundary before the entries `left`, which are all that is left. */
    ghost predicate Before(left: seq<Entry>)
      reads this
    {
      && len == |bytecode| && Holds(bytecode, offset, Table(left)) && offset + |Table(left)| == len
      && forall i | 0 <= i < |left| :: left[i].position < 0x1_0000
    }

    /** bytecode_symbol_iterator_create */
    constructor (b: Bytecode, ghost es: seq<Entry>)
      requires b.relocTableOffset <= |b.data| && b.data[b.relocTableOffset..] == Table(es)
      requires forall i | 0 <= i < |es| :: es[i].position < 0x1_0000
      ensures Before(es) && bytecode == b.data
    {
      bytecode, offset, len := b.data, b.relocTableOffset, |b.data|;
      new;
      assert b.data[b.relocTableOffset..b.relocTableOffset + |Table(es)|] == b.data[b.relocTableOffset..];
    }

    /** bytecode_symbol_iterator_get_type */
    method GetType(ghost left: seq<Entry>) returns (t: nat)
      requires Before(left) && left != []
      ensures t == left[0].position
    {
      hide Val, Le, Holds;
      EntryReads(bytecode, offset, left);
      t := Val(bytecode[offset..offset + 2]);
    }

    /** bytecode_symbol_iterator_get_name */
    method GetName(ghost left: seq<Entry>) returns (name: seq<byte>)
      requires Before(left) && left != []
      ensures name == left[0].name
    {
      hide Val, Le, Holds;
      EntryReads(bytecode, offset, left);
      var at := offset + 2;
      name := bytecode[at..at + StrnLen(bytecode[at..])];
    }

    /** bytecode_symbol_iterator_next: -1 exactly when there is no entry after this one. */
    method Next(ghost left: seq<Entry>) returns (ret: int)
      requires Before(left)
      modifies this
      ensures left == [] ==> ret == -1 && Before([])
      ensures left != [] ==> Before(left[1..]) && ret == if |left| == 1 then -1 else 0
    {
      hide Val, Le, Holds;
      if offset >= len {
        EmptyTable(left);
        return -1;
      }
      EntryReads(bytecode, offset, left);
      var length := StrnLen(bytecode[offset + 2..]) + 1;
      offset := offset + length + 2;
      EmptyTable(left[1..]);
      ret := if offset >= len then -1 else 0;
    }
  }

  lemma EmptyTable(es: seq<Entry>)
    ensures |Table(es)| == 0 <==> es == []
  {
    hide Le;
  }

  /** What lies at a boundary: the first of the entries left, and the next boundary. */
  lemma EntryReads(m: seq<byte>, at: nat, left: seq<Entry>)
    requires Holds(m, at, Table(left)) && at + |Table(left)| == |m| && |Table(left)| > 0
    requires forall i | 0 <= i < |left| :: left[i].position < 0x1_0000
    ensures left != [] && at + 2 <= |m| && Val(m[at..at + 2]) == left[0].position
    ensures var n := |left[0].name|;
            && StrnLen(m[at + 2..]) == n && at + 2 + n + 1 <= |m| && m[at + 2..at + 2 + n] == left[0].name
            && Holds(m, at + 2 + n + 1, Table(left[1..])) && at + 2 + n + 1 + |Table(left[1..])| == |m|
  {
    hide Val, Le, Holds;
    var (p, name) := (Le(2, left[0].position), left[0].name);
    HoldsBoth(m, at, EntryBytes(left[0]), Table(left[1..]));
    HoldsBoth(m, at, p, Terminated(name));
    Pow256Values();
    ValLe(2, left[0].position);
    FieldAt(m, at, p);
    NameReads(m, at + 2, name);
  }

  lemma FieldAt(m: seq<byte>, at: nat, p: seq<byte>)
    requires Holds(m, at, p)
    ensures at + |p| <= |m| && m[at..at + |p|] == p
  {
  }

  lemma NameReads(m: seq<byte>, at: nat, name: cstring)
    requires Holds(m, at, Terminated(name))
    ensures at + |name| + 1 <= |m| && StrnLen(m[at..]) == |name| && m[at..at + |name|] == name
  {
    var n := |name|;
    assert m[at..at + n + 1] == Terminated(name);
    assert m[at..at + n] == m[at..at + n + 1][..n];
    assert m[at..][..n] == name && m[at..][n] == m[at..at + n + 1][n] == 0;
    StrnLenIs(m[at..], n);
  }

  // ---------------------------------------------------------------------
  // Whole tables

  /** The entries of a table, if it is one: a number and a terminated name each, to the end. */
  function EntriesOf(m: seq<byte>): Option<seq<Entry>>
    decreases |m|
  {
    if m == [] then Some([])
    else if |m| < 3 || StrnLen(m[2..]) == |m| - 2 then None
    else
      var n := StrnLen(m[2..]);
      assert m[2..][..n] == m[2..2 + n];
      var rest := EntriesOf(m[2 + n + 1..]);
      if rest.None? then None else Some([Entry(Val(m[..2]), m[2..2 + n])] + rest.value)
  }

  /** Every list of entries is that of its table. */
  lemma {:induction false} EntriesRead(es: seq<Entry>)
    requires forall i | 0 <= i < |es| :: es[i].position < 0x1_0000
    ensures EntriesOf(Table(es)) == Some(es)
  {
    hide Val, Le, StrnLen;
    if es != [] {
      var (m, p, n) := (Table(es), Le(2, es[0].position), |es[0].name|);
      var rest := Table(es[1..]);
      assert m == p + (Terminated(es[0].name) + rest);
      assert m[..2] == p && m[2..] == Terminated(es[0].name) + rest;
      Pow256Values();
      ValLe(2, es[0].position);
      assert m[2..][..n] == es[0].name && m[2..][n] == 0 && m[2..2 + n] == m[2..][..n];
      StrnLenIs(m[2..], n);
      assert m[2 + n + 1..] == rest;
      EntriesRead(es[1..]);
      assert [es[0]] + es[1..] == es;
    }
  }

  /** A table that has entries is made of them. */
  lemma {:induction false} TableOf(m: seq<byte>)
    requires EntriesOf(m).Some?
    ensures var es := EntriesOf(m).value;
            m == Table(es) && forall i | 0 <= i < |es| :: es[i].position < 0x1_0000
    decreases |m|
  {
    hide Val, Le, StrnLen, EntryBytes;
    if m != [] {
      var n := StrnLen(m[2..]);
      var es := EntriesOf(m).value;
      TableOf(m[2 + n + 1..]);
      FirstEntry(m, n);
      assert es[1..] == EntriesOf(m[2 + n + 1..]).value;
    }
  }

  lemma FirstEntry(m: seq<byte>, n: nat)
    requires 2 + n < |m| && 0 !in m[2..2 + n] && m[2..][n] == 0
    ensures m == EntryBytes(Entry(Val(m[..2]), m[2..2 + n])) + m[2 + n + 1..] && Val(m[..2]) < 0x1_0000
  {
    hide Val, Le;
    Pow256Values();
    LeVal(m[..2]);
    assert m == m[..2] + (m[2..2 + n] + [0]) + m[2 + n + 1..];
  }

  /** The loop that a user of the iterator runs: it visits every entry of a non-empty table once, in order. */
  method VisitAll(b: Bytecode) returns (visited: seq<(nat, seq<byte>)>)
    requires b.relocTableOffset < |b.data| && EntriesOf(b.data[b.relocTableOffset..]).Some?
    ensures var es := EntriesOf(b.data[b.relocTableOffset..]).value;
            |visited| == |es| && forall i | 0 <= i < |es| :: visited[i] == (es[i].position, es[i].name)
  {
    hide EntriesOf, Table;
    ghost var es := EntriesOf(b.data[b.relocTableOffset..]).value;
    TableOf(b.data[b.relocTableOffset..]);
    EmptyTable(es);
    var it := new SymbolIterator(b, es);
    var ret := 0;
    visited := [];
    ghost var i := 0;
    assert es[0..] == es;
    while ret == 0
      invariant 0 <= i <= |es| == i + |es[i..]| && it.Before(es[i..]) && fresh(it)
      invariant ret == 0 <==> i < |es|
      invariant |visited| == i && forall j | 0 <= j < i :: visited[j] == (es[j].position, es[j].name)
      decreases |es| - i
    {
      var t := it.GetType(es[i..]);
      var name := it.GetName(es[i..]);
      visited := visited + [(t, name)];
      ret := it.Next(es[i..]);
      assert es[i..][1..] == es[i + 1..];
      i := i + 1;
    }
  }
}
