/**
 src/common/lttng-elf.c:692-744 and 895-1075: the walk over the notes of a
 .note.stapsdt section in search of SDT probes. Notes are laid out as chapter 5 of
 the System V ABI says, with 4-byte alignment, in the byte order of the machine.
 */
module ElfNotes {
  import opened Bytes
  import opened Wire
  import opened Wrappers

  const NOTE_HEADER: Layout := [4, 4, 4]      // namesz, descsz, type
  const NOTE_STAPSDT_TYPE := 3
  const STAPSDT: cstring := [115, 116, 97, 112, 115, 100, 116]   // "stapsdt"
  const MAX_FIELD := 0xFFFF_FFFC              // a larger size does not survive rounding in 32 bits
  const MAX_SECTION_DATA_SIZE := 512 * 1024 * 1024
  const ERR_ELF_PARSING := 139
  const ERR_SDT_PROBE_SEMAPHORE := 140

  /** next_4bytes_boundary on a 32-bit value */
  function Next4(x: nat): nat {
    (x + 3) / 4 * 4 % 0x1_0000_0000
  }

  lemma Next4Is(x: nat)
    requires x <= MAX_FIELD
    ensures x <= Next4(x) < x + 4 && Next4(x) % 4 == 0
  {
  }

  // ---------------------------------------------------------------------
  // Notes

  datatype Note = Note(owner: cstring, namePad: seq<byte>, kind: nat, desc: seq<byte>, descPad: seq<byte>)

  predicate IsSdt(n: Note) {
    n.owner == [115, 116, 97, 112, 115, 100, 116] && n.kind == 3
  }

  // The description of an SDT probe: three addresses, then the provider, the probe and its arguments.

  function ProviderLength(desc: seq<byte>): nat
    requires |desc| >= 24
  {
    StrnLen(desc[24..])
  }

  function ProbeStart(desc: seq<byte>): nat
    requires |desc| >= 24
  {
    24 + ProviderLength(desc) + 1
  }

  predicate DescOk(desc: seq<byte>) {
    && |desc| >= 24 && ProbeStart(desc) <= |desc|
    && ProbeStart(desc) + StrnLen(desc[ProbeStart(desc)..]) < |desc|
  }

  function Location(desc: seq<byte>): nat
    requires DescOk(desc)
  {
    Val(desc[..8])
  }

  function Semaphore(desc: seq<byte>): nat
    requires DescOk(desc)
  {
    Val(desc[16..24])
  }

  function Provider(desc: seq<byte>): cstring
    requires DescOk(desc)
  {
    assert desc[24..24 + ProviderLength(desc)] == desc[24..][..ProviderLength(desc)];
    desc[24..24 + ProviderLength(desc)]
  }

  function ProbeName(desc: seq<byte>): cstring
    requires DescOk(desc)
  {
    var at := ProbeStart(desc);
    assert desc[at..at + StrnLen(desc[at..])] == desc[at..][..StrnLen(desc[at..])];
    desc[at..at + StrnLen(desc[at..])]
  }

  /** Three addresses of which the second, the base, is skipped; two terminated strings; then whatever arguments. */
  lemma DescOnTheWire(desc: seq<byte>, provider: cstring, probe: cstring, args: seq<byte>)
    requires |desc| >= 24 && desc[24..] == provider + [0] + (probe + [0] + args)
    ensures DescOk(desc) && Provider(desc) == provider && ProbeName(desc) == probe
    ensures Location(desc) == Val(desc[0..8]) && Semaphore(desc) == Val(desc[16..24])
  {
    hide Val, StrnLen;
    var (rest, more, p) := (desc[24..], probe + [0] + args, |provider|);
    StringFirst(provider, more);
    SliceSlice(desc, 24, |desc|, 0, p);
    SliceSlice(desc, 24, |desc|, p + 1, |rest|);
    SliceRight(provider + [0], more, p + 1, |rest|);
    assert rest[p + 1..|rest|] == more;
    assert desc[24 + p + 1..] == more;
    StringFirst(probe, args);
    SliceSlice(desc, 24 + p + 1, |desc|, 0, |probe|);
  }

  lemma StringFirst(s: cstring, rest: seq<byte>)
    ensures StrnLen(s + [0] + rest) == |s| && (s + [0] + rest)[..|s|] == s
  {
    var m := s + [0] + rest;
    assert m[..|s|] == s;
    StrnLenIs(m, |s|);
  }

  predicate WellFormed(n: Note) {
    && |n.owner| + 1 <= MAX_FIELD && |n.namePad| == Next4(|n.owner| + 1) - (|n.owner| + 1)
    && |n.desc| <= MAX_FIELD && |n.descPad| == Next4(|n.desc|) - |n.desc|
    && n.kind < 0x1_0000_0000
    && (IsSdt(n) ==> DescOk(n.desc))
  }

  function HeaderOf(n: Note): (vs: seq<nat>)
    ensures |vs| == |NOTE_HEADER|
  {
    [|n.owner| + 1, |n.desc|, n.kind]
  }

  function NoteBytes(n: Note): seq<byte> {
    Pack(NOTE_HEADER, HeaderOf(n)) + (Terminated(n.owner) + n.namePad + (n.desc + n.descPad))
  }

  function NoteSize(n: Note): nat {
    12 + Next4(|n.owner| + 1) + Next4(|n.desc|)
  }

  /** The contents of a note section. */
  function Section(ns: seq<Note>): seq<byte> {
    if ns == [] then [] else NoteBytes(ns[0]) + Section(ns[1..])
  }

  lemma HeaderSize()
    ensures Size(NOTE_HEADER) == 12
  {
    assert NOTE_HEADER[1..] == [4, 4] && [4, 4][1..] == [4];
  }

  /** Where the parts of a note lie. */
  lemma NoteParts(m: seq<byte>, at: nat, n: Note)
    requires WellFormed(n) && Holds(m, at, NoteBytes(n))
    ensures |NoteBytes(n)| == NoteSize(n) && at + NoteSize(n) <= |m|
    ensures Holds(m, at, Pack(NOTE_HEADER, HeaderOf(n))) && Holds(m, at + 12, Terminated(n.owner))
    ensures Holds(m, at + 12 + Next4(|n.owner| + 1), n.desc)
  {
    hide Pack, Next4, Size;
    HeaderSize();
    Next4Is(|n.owner| + 1);
    Next4Is(|n.desc|);
    SplitNote(m, at, Pack(NOTE_HEADER, HeaderOf(n)), Terminated(n.owner), n.namePad, n.desc, n.descPad);
  }

  /** The three numbers, the owner and its terminator, then the description. */
  lemma NoteOnTheWire(n: Note)
    requires WellFormed(n)
    ensures var (s, d) := (NoteBytes(n), 12 + |n.owner| + 1 + |n.namePad|);
            && |s| == d + |n.desc| + |n.descPad|
            && Val(s[0..4]) == |n.owner| + 1 && Val(s[4..8]) == |n.desc| && Val(s[8..12]) == n.kind
            && s[12..12 + |n.owner| + 1] == n.owner + [0] && s[d..d + |n.desc|] == n.desc
  {
    hide NoteBytes, Next4, Pack, Size, Val, DescOk;
    var s := NoteBytes(n);
    assert Holds(s, 0, s);
    NoteParts(s, 0, n);
    HeaderRead(s, 0, n);
    Next4Is(|n.owner| + 1);
    Next4Is(|n.desc|);
  }

  /** Both are padded to the next multiple of 4 bytes. */
  lemma NoteIsPadded(n: Note)
    requires WellFormed(n)
    ensures |n.namePad| < 4 && (|n.owner| + 1 + |n.namePad|) % 4 == 0
    ensures |n.descPad| < 4 && (|n.desc| + |n.descPad|) % 4 == 0
  {
    hide Next4, DescOk;
    Next4Is(|n.owner| + 1);
    Next4Is(|n.desc|);
  }

  lemma SplitNote(m: seq<byte>, at: nat, h: seq<byte>, o: seq<byte>, p: seq<byte>, d: seq<byte>, q: seq<byte>)
    requires Holds(m, at, h + (o + p + (d + q)))
    ensures Holds(m, at, h) && Holds(m, at + |h|, o) && Holds(m, at + |h| + |o| + |p|, d)
  {
    hide Holds;
    HoldsBoth(m, at, h, o + p + (d + q));
    HoldsBoth(m, at + |h|, o + p, d + q);
    HoldsBoth(m, at + |h|, o, p);
    HoldsBoth(m, at + |h| + |o| + |p|, d, q);
  }

  // ---------------------------------------------------------------------
  // Reading one note

  /** strncmp(m + at, t, n) == 0 */
  predicate StrNCmpEqual(m: seq<byte>, at: nat, t: cstring, n: nat)
    requires at + n <= |m|
    decreases n
  {
    if n == 0 then true else
    var c := if t == [] then 0 else t[0];
    if m[at] != c then false
    else if c == 0 then true
    else
      assert forall i | 0 <= i < |t| - 1 :: t[1..][i] == t[i + 1] != 0;
      StrNCmpEqual(m, at + 1, t[1..], n - 1)
  }

  /** On a terminated string, it compares the whole strings. */
  lemma {:induction false} StrNCmpIs(m: seq<byte>, at: nat, s: cstring, t: cstring, n: nat)
    requires Holds(m, at, Terminated(s)) && |s| < n && at + n <= |m|
    ensures StrNCmpEqual(m, at, t, n) <==> s == t
    decreases n
  {
    CharAt(m, at, s);
    if s != [] && t != [] && s[0] == t[0] {
      TailOf(s);
      TailOf(t);
      StrNCmpIs(m, at + 1, s[1..], t[1..], n - 1);
      assert s == [s[0]] + s[1..] && t == [t[0]] + t[1..];
    } else if t != [] {
      assert t[0] != 0;
    }
  }

  lemma TailOf(s: cstring)
    requires s != []
    ensures 0 !in s[1..]
  {
    assert forall i | 0 <= i < |s| - 1 :: s[1..][i] == s[i + 1];
  }

  lemma CharAt(m: seq<byte>, at: nat, s: cstring)
    requires Holds(m, at, Terminated(s))
    ensures m[at] == if s == [] then 0 else s[0]
    ensures s != [] ==> 0 !in s[1..] && Holds(m, at + 1, Terminated(s[1..]))
  {
    assert m[at] == m[at..at + |s| + 1][0] == Terminated(s)[0];
    if s != [] {
      TailOf(s);
      assert Terminated(s) == [s[0]] + Terminated(s[1..]);
      HoldsBoth(m, at, [s[0]], Terminated(s[1..]));
    }
  }

  /** strlen does not look past the terminator. */
  lemma {:induction false} StrlenLocal(a: seq<byte>, b: seq<byte>)
    requires a <= b && StrnLen(a) < |a|
    ensures StrnLen(b) == StrnLen(a)
  {
    var n := StrnLen(a);
    assert b[..n] == a[..n];
    StrnLenIs(b, n);
  }

  /** The string read at index `i` of a description that lies at `at`. */
  lemma StringInDesc(m: seq<byte>, at: nat, desc: seq<byte>, i: nat)
    requires Holds(m, at, desc) && i <= |desc| && StrnLen(desc[i..]) < |desc| - i
    ensures StrnLen(m[at + i..]) == StrnLen(desc[i..])
    ensures var n := StrnLen(desc[i..]); m[at + i..at + i + n] == desc[i..i + n]
  {
    var n := StrnLen(desc[i..]);
    assert m[at..at + |desc|] == desc;
    assert desc[i..] <= m[at + i..];
    StrlenLocal(desc[i..], m[at + i..]);
    SliceSlice(m, at, at + |desc|, i, i + n);
  }

  lemma AddressesInDesc(m: seq<byte>, at: nat, desc: seq<byte>)
    requires Holds(m, at, desc) && |desc| >= 24
    ensures at + |desc| <= |m| && m[at..at + 8] == desc[..8] && m[at + 16..at + 24] == desc[16..24]
  {
    assert m[at..at + |desc|] == desc;
    SliceSlice(m, at, at + |desc|, 0, 8);
    SliceSlice(m, at, at + |desc|, 16, 24);
  }

  /** What one iteration learns from a note. */
  datatype Reading = Reading(location: nat, semaphore: nat, provider: seq<byte>, probe: seq<byte>)

  method ReadDesc(m: seq<byte>, at: nat, ghost desc: seq<byte>) returns (r: Reading)
    requires Holds(m, at, desc) && DescOk(desc)
    ensures r == Reading(Location(desc), Semaphore(desc), Provider(desc), ProbeName(desc))
  {
    hide Val, StrnLen, Holds;
    var cur := at;
    AddressesInDesc(m, at, desc);
    var location := Val(m[cur..cur + 8]);
    cur := cur + 8 + 8;
    var semaphore := Val(m[cur..cur + 8]);
    cur := cur + 8;
    StringInDesc(m, at, desc, 24);
    var length := StrnLen(m[cur..]);
    var provider := m[cur..cur + length];
    cur := cur + length + 1;
    StringInDesc(m, at, desc, ProbeStart(desc));
    r := Reading(location, semaphore, provider, m[cur..cur + StrnLen(m[cur..])]);
  }

  /** The header of a note, and whether an SDT probe follows it. */
  method ReadHeader(m: seq<byte>, at: nat, ghost n: Note) returns (nameSize: nat, descSize: nat, sdt: bool)
    requires WellFormed(n) && Holds(m, at, NoteBytes(n))
    ensures nameSize == Next4(|n.owner| + 1) > 0 && descSize == Next4(|n.desc|) && sdt == IsSdt(n)
  {
    hide Next4, NoteBytes, Pack, StrNCmpEqual, Size;
    NoteParts(m, at, n);
    HeaderRead(m, at, n);
    Next4Is(|n.owner| + 1);
    nameSize := Next4(Val(m[at..at + 4]));
    descSize := Next4(Val(m[at + 4..at + 8]));
    var noteType := Val(m[at + 8..at + 12]);
    StrNCmpIs(m, at + 12, n.owner, STAPSDT, nameSize);
    sdt := noteType == NOTE_STAPSDT_TYPE && StrNCmpEqual(m, at + 12, STAPSDT, nameSize);
  }

  lemma HeaderRead(m: seq<byte>, at: nat, n: Note)
    requires WellFormed(n) && Holds(m, at, Pack(NOTE_HEADER, HeaderOf(n))) && at + 12 <= |m|
    ensures Val(m[at..at + 4]) == |n.owner| + 1 && Val(m[at + 4..at + 8]) == |n.desc| && Val(m[at + 8..at + 12]) == n.kind
  {
    hide Next4, Size, Val, Le, Pow256, DescOk;
    HeaderSize();
    Pow256Values();
    var (a, b, c) := (Le(4, |n.owner| + 1), Le(4, |n.desc|), Le(4, n.kind));
    PackThree(HeaderOf(n));
    HoldsBoth(m, at, a, b + c);
    HoldsBoth(m, at + 4, b, c);
    ValLe(4, |n.owner| + 1);
    ValLe(4, |n.desc|);
    ValLe(4, n.kind);
  }

  lemma PackThree(vs: seq<nat>)
    requires |vs| == 3
    ensures Pack(NOTE_HEADER, vs) == Le(4, vs[0]) + (Le(4, vs[1]) + Le(4, vs[2]))
  {
    hide Le;
    assert NOTE_HEADER[1..] == [4, 4] && [4, 4][1..] == [4];
    assert vs[1..][1..] == [vs[2]];
    assert Pack([4], [vs[2]]) == Le(4, vs[2]);
  }

  // ---------------------------------------------------------------------
  // The walk

  /** The .text section: offset in the file, address and size; none if there is no such section. */
  datatype Text = Text(offset: nat, addr: nat, size: nat)

  /** lttng_elf_convert_addr_in_text_to_offset; the end address itself is accepted. */
  function ToOffset(text: Option<Text>, addr: nat): Option<nat> {
    if text.None? then None
    else if addr < text.value.addr || addr > text.value.addr + text.value.size then None
    else Some(text.value.offset + (addr - text.value.addr))
  }

  predicate Matches(n: Note, provider: cstring, probe: cstring) {
    IsSdt(n) && DescOk(n.desc) && Provider(n.desc) == provider && ProbeName(n.desc) == probe
  }

  /** The notes of `ns` that describe the probe, in order. */
  function Matching(ns: seq<Note>, provider: cstring, probe: cstring): (ms: seq<Note>)
    ensures forall n :: n in ms <==> n in ns && Matches(n, provider, probe)
  {
    if ns == [] then []
    else
      var before := Matching(ns[..|ns| - 1], provider, probe);
      if Matches(ns[|ns| - 1], provider, probe) then before + [ns[|ns| - 1]] else before
  }

  lemma MatchingLast(ns: seq<Note>, n: Note, provider: cstring, probe: cstring)
    ensures Matching([], provider, probe) == []
    ensures Matching(ns + [n], provider, probe) ==
            Matching(ns, provider, probe) + if Matches(n, provider, probe) then [n] else []
  {
    hide Matches;
    assert (ns + [n])[..|ns|] == ns;
  }

  /** A note that matches stays, any other goes, and the order is kept. */
  lemma {:induction false} MatchingInOrder(a: seq<Note>, n: Note, b: seq<Note>, provider: cstring, probe: cstring)
    ensures Matching(a + [n] + b, provider, probe) ==
            Matching(a, provider, probe) + (if Matches(n, provider, probe) then [n] else []) + Matching(b, provider, probe)
    decreases |b|
  {
    hide Matches, Matching;
    MatchingLast(a, n, provider, probe);
    if b == [] {
      assert a + [n] + b == a + [n];
    } else {
      var (rest, last) := (b[..|b| - 1], b[|b| - 1]);
      MatchingInOrder(a, n, rest, provider, probe);
      MatchingLast(rest, last, provider, probe);
      MatchingLast(a + [n] + rest, last, provider, probe);
      assert b == rest + [last] && a + [n] + b == a + [n] + rest + [last];
      Associate(Matching(a + [n], provider, probe), Matching(rest, provider, probe),
                if Matches(last, provider, probe) then [last] else []);
    }
  }

  /** A probe that can be used: no semaphore, and in .text, whose end address counts as inside. */
  predicate Usable(n: Note, text: Option<Text>) {
    && DescOk(n.desc) && Semaphore(n.desc) == 0 && text.Some?
    && text.value.addr <= Location(n.desc) <= text.value.addr + text.value.size
  }

  /** `os` are the places of the probes `ms` in the file: as far into .text there as in memory. */
  predicate AreOffsets(os: seq<nat>, ms: seq<Note>, text: Option<Text>) {
    && |os| == |ms|
    && forall i | 0 <= i < |ms| ::
         text.Some? && DescOk(ms[i].desc) && os[i] - text.value.offset == Location(ms[i].desc) - text.value.addr
  }

  /** The code a note that cannot be used gives. */
  function Complaint(n: Note): int
    requires DescOk(n.desc)
  {
    if Semaphore(n.desc) != 0 then 140 else 139
  }

  /**
   lttng_elf_get_sdt_probe_offsets, on the data of the section. Too large a section
   is refused. Otherwise it succeeds exactly if every matching note can be used, and
   then returns their offsets in order, whose size in bytes fits an int; otherwise the
   first that cannot be used decides the error.
   */
  method GetSdtProbeOffsets(m: seq<byte>, provider: cstring, probe: cstring, text: Option<Text>, ghost ns: seq<Note>)
    returns (ret: int, offsets: seq<nat>)
    requires m == Section(ns) && forall i | 0 <= i < |ns| :: WellFormed(ns[i])
    ensures |m| > 0x2000_0000 ==> ret == 139
    ensures |m| <= 0x2000_0000 ==>
              (ret == 0 <==> forall n :: n in Matching(ns, provider, probe) ==> Usable(n, text))
    ensures ret == 0 ==> AreOffsets(offsets, Matching(ns, provider, probe), text) && |offsets| * 8 <= INT_MAX
    ensures ret != 0 && |m| <= 0x2000_0000 ==>
              exists i: nat :: FirstBad(ns, i, provider, probe, text) && ret == Complaint(ns[i])
  {
    hide NoteBytes, NoteSize, WellFormed, DescOk, Matching, AreOffsets, Section, Next4;
    hide Provider, ProbeName, Location, Semaphore;
    offsets := [];
    if |m| > MAX_SECTION_DATA_SIZE {
      return ERR_ELF_PARSING, offsets;
    }
    var next := 0;
    ghost var i := 0;
    StartWalk(m, ns, provider, probe);
    while next < |m|
      invariant i <= |ns| && Holds(m, next, Section(ns[i..])) && next + |Section(ns[i..])| == |m|
      invariant forall n :: n in Matching(ns[..i], provider, probe) ==> Usable(n, text)
      invariant AreOffsets(offsets, Matching(ns[..i], provider, probe), text) && |offsets| * 12 <= next
      decreases |m| - next
    {
      NextNote(m, next, ns, i);
      var nameSize, descSize, sdt := ReadHeader(m, next, ns[i]);
      NoteParts(m, next, ns[i]);
      var cur := next + 12;
      next := next + 12 + descSize + nameSize;
      NoteSizeIs(ns[i]);
      if sdt {
        cur := cur + nameSize;
        WellFormedSdt(ns[i]);
        var r := ReadDesc(m, cur, ns[i].desc);
        if r.provider == provider && r.probe == probe {
          MatchingNext(ns, i, provider, probe);
          if r.semaphore != 0 {
            BadHere(ns, i, provider, probe, text);
            return ERR_SDT_PROBE_SEMAPHORE, [];
          }
          var offset := ToOffset(text, r.location);
          if offset.None? {
            BadHere(ns, i, provider, probe, text);
            return ERR_ELF_PARSING, [];
          }
          OffsetsNext(offsets, ns, i, provider, probe, text);
          offsets := offsets + [offset.value];
        } else {
          MatchingNext(ns, i, provider, probe);
        }
      } else {
        MatchingNext(ns, i, provider, probe);
      }
      i := i + 1;
    }
    EndWalk(ns, i);
    ret := 0;
  }

  /** Note `i` is the first that matches and cannot be used. */
  ghost predicate FirstBad(ns: seq<Note>, i: nat, provider: cstring, probe: cstring, text: Option<Text>) {
    && i < |ns| && Matches(ns[i], provider, probe) && !Usable(ns[i], text)
    && forall n :: n in Matching(ns[..i], provider, probe) ==> Usable(n, text)
  }

  lemma BadHere(ns: seq<Note>, i: nat, provider: cstring, probe: cstring, text: Option<Text>)
    requires i < |ns| && Matches(ns[i], provider, probe) && !Usable(ns[i], text)
    ensures ns[i] in Matching(ns, provider, probe)
  {
    hide DescOk, Provider, ProbeName;
  }

  lemma StartWalk(m: seq<byte>, ns: seq<Note>, provider: cstring, probe: cstring)
    requires m == Section(ns)
    ensures ns[0..] == ns && Holds(m, 0, Section(ns)) && Matching(ns[..0], provider, probe) == []
    ensures forall text :: AreOffsets([], Matching(ns[..0], provider, probe), text)
  {
    assert m[0..|m|] == m;
  }

  lemma NextNote(m: seq<byte>, at: nat, ns: seq<Note>, i: nat)
    requires i <= |ns| && Holds(m, at, Section(ns[i..])) && at + |Section(ns[i..])| == |m| && at < |m|
    ensures i < |ns| && Holds(m, at, NoteBytes(ns[i]))
    ensures var next := at + |NoteBytes(ns[i])|;
            Holds(m, next, Section(ns[i + 1..])) && next + |Section(ns[i + 1..])| == |m|
  {
    hide NoteBytes, Holds;
    assert ns[i..][1..] == ns[i + 1..];
    HoldsBoth(m, at, NoteBytes(ns[i]), Section(ns[i + 1..]));
  }

  lemma EndWalk(ns: seq<Note>, i: nat)
    requires i <= |ns| && |Section(ns[i..])| == 0
    ensures ns[..i] == ns
  {
    hide Pack, Size;
    HeaderSize();
  }

  lemma NoteSizeIs(n: Note)
    ensures NoteSize(n) == 12 + Next4(|n.owner| + 1) + Next4(|n.desc|) >= 12
  {
  }

  lemma WellFormedSdt(n: Note)
    requires WellFormed(n) && IsSdt(n)
    ensures DescOk(n.desc)
  {
  }

  lemma MatchingNext(ns: seq<Note>, i: nat, provider: cstring, probe: cstring)
    requires i < |ns|
    ensures Matching(ns[..i + 1], provider, probe) ==
            if Matches(ns[i], provider, probe) then Matching(ns[..i], provider, probe) + [ns[i]]
            else Matching(ns[..i], provider, probe)
  {
    hide DescOk, Provider, ProbeName;
    assert ns[..i + 1][..i] == ns[..i];
  }

  lemma OffsetsNext(offsets: seq<nat>, ns: seq<Note>, i: nat, provider: cstring, probe: cstring, text: Option<Text>)
    requires i < |ns| && Matches(ns[i], provider, probe) && Usable(ns[i], text)
    requires AreOffsets(offsets, Matching(ns[..i], provider, probe), text)
    requires forall n :: n in Matching(ns[..i], provider, probe) ==> Usable(n, text)
    ensures forall n :: n in Matching(ns[..i + 1], provider, probe) ==> Usable(n, text)
    ensures ToOffset(text, Location(ns[i].desc)).Some?
    ensures AreOffsets(offsets + [ToOffset(text, Location(ns[i].desc)).value], Matching(ns[..i + 1], provider, probe), text)
  {
    hide DescOk, Provider, ProbeName, Location, Semaphore, Matching;
    MatchingNext(ns, i, provider, probe);
  }
}
