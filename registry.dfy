/** The dictionary registry: two parallel fixed-capacity tables, one of
    compiled compression dictionaries (`globalCDicts`) and one of compiled
    decompression dictionaries (`globalDDicts`), each of 10 `(name, handle)`
    slots and a fill count, with first-match lookup by name. */
module Registry {
  import opened Zstd

  datatype Option<T> = None | Some(value: T)

  /** A dictionary name as the Go side passes it: the `n` bytes of a Go
      string, NUL being the byte 0. */
  type Name = seq<byte>

  /** One slot: `GoCDict` / `GoDDict`. */
  datatype Entry<H> = Entry(key: Name, handle: H)

  /** Number of slots in each table (the array dimension). */
  const Slots: int := 10
  /** The capacity `AddDict` enforces (`dictLen`). */
  const DictLen: int := 10
  /** Exit status of the process when the registry is full. */
  const ErrorMaxDicts: int := 10

  /** The bytes `strcmp` compares: those before the first NUL. */
  function CString(s: Name): (r: Name)
    ensures r <= s && 0 !in r
    ensures |r| < |s| ==> s[|r|] == 0
  {
    if |s| == 0 || s[0] == 0 then [] else [s[0]] + CString(s[1..])
  }

  /** `a` and `b` agree at every position of `a` that no earlier NUL of
      `a` hides: what `strcmp` returning 0 means for two names of one length. */
  predicate AgreeBeforeNul(a: Name, b: Name)
    requires |a| == |b|
  {
    forall k :: 0 <= k < |a| && 0 !in a[..k] ==> a[k] == b[k]
  }

  lemma AgreeBeforeNulAtNul(a: Name, b: Name)
    requires |a| == |b| > 0 && a[0] == 0
    ensures AgreeBeforeNul(a, b) <==> b[0] == 0
  {
    assert a[..0] == [];
    forall k | 0 < k < |a| ensures 0 in a[..k] {
      assert a[..k][0] == 0;
    }
  }

  lemma AgreeBeforeNulStep(a: Name, b: Name)
    requires |a| == |b| > 0 && a[0] != 0
    ensures AgreeBeforeNul(a, b) <==> a[0] == b[0] && AgreeBeforeNul(a[1..], b[1..])
  {
    assert a[..0] == [];
    if AgreeBeforeNul(a, b) {
      forall k | 0 <= k < |a| - 1 && 0 !in a[1..][..k] ensures a[1..][k] == b[1..][k] {
        assert a[..k + 1] == [a[0]] + a[1..][..k];
      }
    }
    if a[0] == b[0] && AgreeBeforeNul(a[1..], b[1..]) {
      forall k | 0 <= k < |a| && 0 !in a[..k] ensures a[k] == b[k] {
        if k > 0 {
          assert a[..k] == [a[0]] + a[1..][..k - 1];
        }
      }
    }
  }

  /** Two names of one length have the same C string exactly when they
      agree at every position that no earlier NUL hides. */
  lemma {:induction false} CStringsAgree(a: Name, b: Name)
    requires |a| == |b|
    ensures CString(a) == CString(b) <==> AgreeBeforeNul(a, b)
    decreases |a|
  {
    if |a| == 0 {
    } else if a[0] == 0 {
      AgreeBeforeNulAtNul(a, b);
    } else {
      CStringsAgree(a[1..], b[1..]);
      AgreeBeforeNulStep(a, b);
      if b[0] != 0 {
        assert CString(b) == [b[0]] + CString(b[1..]);
      }
      assert CString(a) == [a[0]] + CString(a[1..]);
    }
  }

  /** The slot test of the lookups, `key.n == dict.n` and `strcmp` equal:
      the same byte count and the same bytes up to the first NUL. */
  predicate KeyMatches(key: Name, q: Name): (r: bool)
    ensures r <==> |key| == |q| && AgreeBeforeNul(key, q)
  {
    |key| == |q| && (CStringsAgree(key, q); CString(key) == CString(q))
  }

  /** For names without an embedded NUL the slot test is exact equality. */
  lemma {:induction false} KeyMatchesIsEquality(key: Name, q: Name)
    requires 0 !in q
    ensures KeyMatches(key, q) <==> key == q
  {
    assert CString(q) == q by {
      if |CString(q)| < |q| {
        assert false;
      }
    }
    if KeyMatches(key, q) {
      assert |CString(key)| == |key|;
      assert CString(key) <= key;
    }
  }

  /** A name with an embedded NUL matches another name of the same length
      that agrees only up to that NUL ("a\0b" and "a\0c"). */
  lemma EmbeddedNulMatches()
    ensures var x: Name, y: Name := [97, 0, 98], [97, 0, 99];
            KeyMatches(x, y) && x != y
  {
    var x: Name, y: Name := [97, 0, 98], [97, 0, 99];
    assert x[..1] == [97] && x[..2] == [97, 0];
  }

  /** The index of the first slot of `table` whose key matches `q`. */
  function FirstMatch<H>(table: seq<Entry<H>>, q: Name): (r: Option<nat>)
    ensures r.Some? ==> r.value < |table| && KeyMatches(table[r.value].key, q)
    ensures r.Some? ==> forall k :: 0 <= k < r.value ==> !KeyMatches(table[k].key, q)
    ensures r.None? <==> forall k :: 0 <= k < |table| ==> !KeyMatches(table[k].key, q)
  {
    if |table| == 0 then None
    else if KeyMatches(table[0].key, q) then Some(0)
    else match FirstMatch(table[1..], q)
      case None => None
      case Some(i) => Some(i + 1)
  }

  /** What `load_cdict` and `load_ddict` search for: nothing for an empty
      name, otherwise the lowest matching slot among the filled ones. */
  function LookupIndex<H>(table: seq<Entry<H>>, q: Name): (r: Option<nat>)
    ensures r.Some? ==> 0 < |q| && r.value < |table| && KeyMatches(table[r.value].key, q)
    ensures r.Some? ==> forall k :: 0 <= k < r.value ==> !KeyMatches(table[k].key, q)
    ensures r.None? <==> |q| == 0 || forall k :: 0 <= k < |table| ==> !KeyMatches(table[k].key, q)
  {
    if |q| == 0 then None else FirstMatch(table, q)
  }

  /** Appending a slot for a new non-empty name makes that slot the one found. */
  lemma AppendedNameFound<H>(table: seq<Entry<H>>, name: Name, h: H, absent: H)
    requires |name| > 0 && LookupIndex(table, name).None?
    ensures LookupIndex(table + [Entry(name, h)], name) == Some(|table|)
    ensures HandleFor(table + [Entry(name, h)], name, absent) == h
  {
    var t := table + [Entry(name, h)];
    assert KeyMatches(t[|table|].key, name);
    var r := LookupIndex(t, name);
    assert r.Some?;
    if r.value < |table| {
      assert false;
    }
  }

  /** Appending a slot never changes a lookup that already succeeds: earlier
      names, and a duplicate name's first slot, stay the ones found. */
  lemma AppendKeepsFound<H>(table: seq<Entry<H>>, e: Entry<H>, q: Name)
    requires LookupIndex(table, q).Some?
    ensures LookupIndex(table + [e], q) == LookupIndex(table, q)
  {
    var t := table + [e];
    var i := LookupIndex(table, q).value;
    assert t[i] == table[i];
    var r := LookupIndex(t, q);
    assert r.Some?;
    if r.value < i {
      assert false;
    }
  }

  /** A lookup that fails keeps failing after a slot for another name is added. */
  lemma AppendOtherKeepsMissing<H>(table: seq<Entry<H>>, e: Entry<H>, q: Name)
    requires LookupIndex(table, q).None? && !KeyMatches(e.key, q)
    ensures LookupIndex(table + [e], q).None?
  {
    var t := table + [e];
    if |q| > 0 {
      forall k | 0 <= k < |t| ensures !KeyMatches(t[k].key, q) {
        if k < |table| { assert t[k] == table[k]; }
      }
    }
  }

  /** Two tables with the same keys slot by slot find the same slot for
      every name: `load_cdict` and `load_ddict` agree on where a name is. */
  lemma SameKeysSameSlot<H, G>(a: seq<Entry<H>>, b: seq<Entry<G>>, q: Name)
    requires |a| == |b| && forall k :: 0 <= k < |a| ==> a[k].key == b[k].key
    ensures LookupIndex(a, q) == LookupIndex(b, q)
  {
    if LookupIndex(a, q).Some? {
      assert KeyMatches(b[LookupIndex(a, q).value].key, q);
    }
  }

  /** `AddDict` followed by the lookups: once both tables (sharing their
      keys, as `Registry.Valid` keeps them) get a slot for a new non-empty
      name, `load_cdict` and `load_ddict` return the handles just added. */
  lemma {:induction false} AddedNameLoads(ctable: seq<Entry<CDict?>>, dtable: seq<Entry<DDict?>>,
                                          name: Name, cdict: CDict?, ddict: DDict?)
    requires |ctable| == |dtable| && forall k :: 0 <= k < |ctable| ==> ctable[k].key == dtable[k].key
    requires |name| > 0 && LookupIndex(ctable, name).None?
    ensures HandleFor(ctable + [Entry(name, cdict)], name, null) == cdict
    ensures HandleFor(dtable + [Entry(name, ddict)], name, null) == ddict
  {
    AppendedNameFound(ctable, name, cdict, null);
    SameKeysSameSlot(ctable, dtable, name);
    AppendedNameFound(dtable, name, ddict, null);
  }

  /** The handle a lookup returns: the found slot's, else `absent` (NULL). */
  function HandleFor<H>(table: seq<Entry<H>>, q: Name, absent: H): H {
    match LookupIndex(table, q)
    case Some(i) => table[i].handle
    case None => absent
  }

  /** The handles of `table`, slot by slot. */
  function Handles<H>(table: seq<Entry<H>>): (r: seq<H>)
    ensures |r| == |table|
    ensures forall k :: 0 <= k < |table| ==> r[k] == table[k].handle
  {
    if |table| == 0 then [] else Handles(table[..|table| - 1]) + [table[|table| - 1].handle]
  }

  /** `n` copies of `x`. */
  function Repeat<T>(x: T, n: nat): (r: seq<T>)
    ensures |r| == n && forall k :: 0 <= k < n ==> r[k] == x
  {
    if n == 0 then [] else Repeat(x, n - 1) + [x]
  }

  /** The decode handles the second loop of `ReleaseDict` passes to
      `ZSTD_freeDDict` as written: `count` times the handle of slot `i` (the
      first loop's index, left at the encode count), or `None` when that
      slot lies outside the table. */
  function StaleIndexFrees(slots: seq<Entry<DDict?>>, i: int, count: int): (r: Option<seq<DDict?>>)
    ensures r.None? <==> count > 0 && !(0 <= i < |slots|)
    ensures r.Some? ==> |r.value| == (if count > 0 then count else 0)
    ensures r.Some? ==> forall k :: 0 <= k < |r.value| ==> 0 <= i < |slots| && r.value[k] == slots[i].handle
  {
    if count <= 0 then Some([])
    else if 0 <= i < |slots| then Some(Repeat(slots[i].handle, count))
    else None
  }

  /** The as-written release of a registry built by `AddDict`: no registered
      decode handle is ever freed (only the never-filled slot `len`, whose
      handle is NULL), and with all 10 slots filled the loop reads past the
      table. */
  lemma AsWrittenReleaseMissesDecodeHandles(slots: seq<Entry<DDict?>>, len: int)
    requires |slots| == Slots && 0 <= len <= DictLen
    requires forall k :: len <= k < |slots| ==> slots[k] == Entry([], null)
    ensures len == Slots ==> StaleIndexFrees(slots, len, len).None?
    ensures len < Slots ==> StaleIndexFrees(slots, len, len) == Some(Repeat(null, len))
    ensures len < Slots ==> forall k :: 0 <= k < len && slots[k].handle != null ==>
              slots[k].handle !in StaleIndexFrees(slots, len, len).value
  {
    if 0 < len < Slots {
      assert slots[len].handle == null;
    }
  }

  /** What a release call frees: the handles passed to `ZSTD_freeCDict` and
      `ZSTD_freeDDict`, in order, and whether a slot outside a table was read. */
  datatype ReleaseLog = ReleaseLog(cFreed: seq<CDict?>, dFreed: seq<DDict?>, outOfBounds: bool)

  /** Whether `AddDict` returned or ended the process. */
  datatype AddStatus = Added | ProcessExit(code: int)

  /** `globalCDicts` and `globalDDicts` together. */
  class Registry {
    var cdicts: array<Entry<CDict?>>
    var clen: int
    var ddicts: array<Entry<DDict?>>
    var dlen: int

    /** Both tables have 10 slots, the counts are equal and within
        `dictLen`, and the slots at and above the count still hold the
        zero-initialised entry. */
    ghost predicate Valid()
      reads this, cdicts, ddicts
    {
      cdicts.Length == Slots && ddicts.Length == Slots &&
      0 <= clen == dlen <= DictLen <= Slots &&
      (forall k :: clen <= k < Slots ==> cdicts[k] == Entry([], null)) &&
      (forall k :: dlen <= k < Slots ==> ddicts[k] == Entry([], null)) &&
      (forall k :: 0 <= k < clen ==> cdicts[k].key == ddicts[k].key)
    }

    /** The filled slots of the encode table. */
    ghost function CTable(): seq<Entry<CDict?>>
      reads this, cdicts, ddicts
      requires Valid()
    {
      cdicts[..clen]
    }

    /** The filled slots of the decode table. */
    ghost function DTable(): seq<Entry<DDict?>>
      reads this, cdicts, ddicts
      requires Valid()
    {
      ddicts[..dlen]
    }

    /** The statics as the program starts: all slots zero, both counts 0. */
    constructor ()
      ensures Valid() && fresh(cdicts) && fresh(ddicts)
      ensures CTable() == [] && DTable() == []
    {
      cdicts := new Entry<CDict?>[Slots](_ => Entry([], null));
      ddicts := new Entry<DDict?>[Slots](_ => Entry([], null));
      clen, dlen := 0, 0;
    }

    /** `load_cdict`: the handle of the first filled slot whose key matches
        `q`, or NULL for an empty name or when no slot matches. */
    method LoadCDict(q: Name) returns (r: CDict?)
      requires Valid()
      ensures r == HandleFor(CTable(), q, null)
    {
      if |q| <= 0 {
        return null;
      }
      var i := 0;
      while i < clen
        invariant 0 <= i <= clen
        invariant forall k :: 0 <= k < i ==> !KeyMatches(cdicts[k].key, q)
      {
        if |cdicts[i].key| == |q| && CString(cdicts[i].key) == CString(q) {
          assert CTable()[i] == cdicts[i];
          ghost var found := LookupIndex(CTable(), q);
          assert found.Some? && found.value == i by {
            if found.None? || found.value < i {
              assert false;
            }
          }
          return cdicts[i].handle;
        }
        i := i + 1;
      }
      assert LookupIndex(CTable(), q).None? by {
        forall k | 0 <= k < |CTable()| ensures !KeyMatches(CTable()[k].key, q) {
          assert CTable()[k] == cdicts[k];
        }
      }
      return null;
    }

    /** `load_ddict`: the same search over the decode table. */
    method LoadDDict(q: Name) returns (r: DDict?)
      requires Valid()
      ensures r == HandleFor(DTable(), q, null)
    {
      if |q| <= 0 {
        return null;
      }
      var i := 0;
      while i < dlen
        invariant 0 <= i <= dlen
        invariant forall k :: 0 <= k < i ==> !KeyMatches(ddicts[k].key, q)
      {
        if |ddicts[i].key| == |q| && CString(ddicts[i].key) == CString(q) {
          assert DTable()[i] == ddicts[i];
          ghost var found := LookupIndex(DTable(), q);
          assert found.Some? && found.value == i by {
            if found.None? || found.value < i {
              assert false;
            }
          }
          return ddicts[i].handle;
        }
        i := i + 1;
      }
      assert LookupIndex(DTable(), q).None? by {
        forall k | 0 <= k < |DTable()| ensures !KeyMatches(DTable()[k].key, q) {
          assert DTable()[k] == ddicts[k];
        }
      }
      return null;
    }

    /** `AddDict`, given the two handles compiled from the dictionary file.
        With either table full the process exits with `ERROR_maxDicts` and
        nothing changes; otherwise each table gets `name` with its handle in
        the slot at its old count, and the counts grow by one.  A name that
        is already present is not refused. */
    method AddDict(name: Name, cdict: CDict?, ddict: DDict?) returns (status: AddStatus)
      requires Valid()
      modifies this`clen, this`dlen, cdicts, ddicts
      ensures Valid()
      ensures status == (if old(clen) >= DictLen || old(dlen) >= DictLen then ProcessExit(ErrorMaxDicts) else Added)
      ensures status.ProcessExit? ==>
                clen == old(clen) && dlen == old(dlen) && cdicts[..] == old(cdicts[..]) && ddicts[..] == old(ddicts[..])
      ensures status.Added? ==> clen == old(clen) + 1 && dlen == old(dlen) + 1 &&
                                cdicts[..] == old(cdicts[..])[old(clen) := Entry(name, cdict)] &&
                                ddicts[..] == old(ddicts[..])[old(dlen) := Entry(name, ddict)]
      ensures status.Added? ==> CTable() == old(CTable()) + [Entry(name, cdict)] &&
                                DTable() == old(DTable()) + [Entry(name, ddict)]
    {
      if clen >= DictLen || dlen >= DictLen {
        return ProcessExit(ErrorMaxDicts);
      }
      ghost var oldC, oldD := CTable(), DTable();
      cdicts[clen] := Entry(name, cdict);
      clen := clen + 1;
      ddicts[dlen] := Entry(name, ddict);
      dlen := dlen + 1;
      assert CTable() == oldC + [Entry(name, cdict)];
      assert DTable() == oldD + [Entry(name, ddict)];
      return Added;
    }

    /** `ReleaseDict` as written: the first loop frees every encode handle;
        the second loop counts with `j` but indexes with the first loop's
        `i`, so it passes slot `clen`'s handle `dlen` times, and reads past
        the decode table when it is full.  Neither count is reset. */
    method ReleaseDictAsWritten() returns (log: ReleaseLog)
      requires Valid()
      ensures log.cFreed == Handles(CTable())
      ensures match StaleIndexFrees(ddicts[..], clen, dlen)
              case Some(frees) => log.dFreed == frees && !log.outOfBounds
              case None => log.dFreed == [] && log.outOfBounds
      ensures forall q :: LookupIndex(CTable(), q).Some? ==> HandleFor(CTable(), q, null) in log.cFreed
    {
      var cFreed: seq<CDict?> := [];
      var i := 0;
      while i < clen
        invariant 0 <= i <= clen
        invariant cFreed == Handles(cdicts[..i])
      {
        assert cdicts[..i + 1][..i] == cdicts[..i];
        cFreed := cFreed + [cdicts[i].handle];
        i := i + 1;
      }
      var dFreed: seq<DDict?> := [];
      var j := 0;
      while j < dlen
        invariant 0 <= j <= dlen
        invariant i == clen
        invariant j > 0 ==> i < ddicts.Length
        invariant dFreed == Repeat(if i < ddicts.Length then ddicts[i].handle else null, j)
      {
        if i >= ddicts.Length {
          ReleasedHandlesFindable(cFreed);
          return ReleaseLog(cFreed, [], true);
        }
        dFreed := dFreed + [ddicts[i].handle];
        j := j + 1;
      }
      ReleasedHandlesFindable(cFreed);
      return ReleaseLog(cFreed, dFreed, false);
    }

    /** Every handle a lookup finds is among `freed` when `freed` lists all
        encode handles. */
    lemma ReleasedHandlesFindable(freed: seq<CDict?>)
      requires Valid() && freed == Handles(CTable())
      ensures forall q :: LookupIndex(CTable(), q).Some? ==> HandleFor(CTable(), q, null) in freed
    {
      forall q | LookupIndex(CTable(), q).Some? {
        AsWrittenReleaseLeavesFreedHandlesFindable(CTable(), q);
      }
    }

    /** The release loops as intended: every filled slot of each table is
        freed once, in slot order, and nothing outside the tables is read. */
    method FreeAll() returns (log: ReleaseLog)
      requires Valid()
      ensures log == ReleaseLog(Handles(CTable()), Handles(DTable()), false)
    {
      var cFreed: seq<CDict?> := [];
      var i := 0;
      while i < clen
        invariant 0 <= i <= clen
        invariant cFreed == Handles(cdicts[..i])
      {
        assert cdicts[..i + 1][..i] == cdicts[..i];
        cFreed := cFreed + [cdicts[i].handle];
        i := i + 1;
      }
      var dFreed: seq<DDict?> := [];
      var j := 0;
      while j < dlen
        invariant 0 <= j <= dlen
        invariant dFreed == Handles(ddicts[..j])
      {
        assert ddicts[..j + 1][..j] == ddicts[..j];
        dFreed := dFreed + [ddicts[j].handle];
        j := j + 1;
      }
      return ReleaseLog(cFreed, dFreed, false);
    }

    /** The release as intended: frees every registered handle and empties
        both tables, so no freed handle can be found again and the registry
        can be filled anew. */
    method ReleaseDict() returns (log: ReleaseLog)
      requires Valid()
      modifies this`clen, this`dlen, cdicts, ddicts
      ensures Valid()
      ensures log == ReleaseLog(Handles(old(CTable())), Handles(old(DTable())), false)
      ensures clen == 0 && dlen == 0
      ensures forall q :: HandleFor(CTable(), q, null) == null && HandleFor(DTable(), q, null) == null
    {
      log := FreeAll();
      forall k | 0 <= k < Slots {
        cdicts[k] := Entry([], null);
      }
      forall k | 0 <= k < Slots {
        ddicts[k] := Entry([], null);
      }
      clen, dlen := 0, 0;
    }
  }

  /** After the as-written release every registered name is still found, and
      what it finds is a handle that release has already freed. */
  lemma AsWrittenReleaseLeavesFreedHandlesFindable(table: seq<Entry<CDict?>>, q: Name)
    requires LookupIndex(table, q).Some?
    ensures HandleFor(table, q, null) in Handles(table)
  {
    var i := LookupIndex(table, q).value;
    assert Handles(table)[i] == table[i].handle;
  }
}
