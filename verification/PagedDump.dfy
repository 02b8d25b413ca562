/** The paged table dump of tdi_python/tdiTable.py over a model of the driver: which handles
    are allocated, what each refers to, and the contract of get-first and get-next-N. */
module PagedDump {

  const PAGE: nat := 20
  const OBJECT_NOT_FOUND: int := 6

  type Handle = nat

  /** The driver side of one table.  Key and data handles are allocated by the caller, filled by
      the get calls and freed by the caller; each operation demands that its handles are live,
      so a verified caller neither frees a handle twice nor uses one after freeing it. */
  class Driver<E> {
    const table: seq<E>
    const faulty: bool  // may calls fail for reasons of their own?
    var liveKeys: set<Handle>
    var liveData: set<Handle>
    var keyAt: map<Handle, nat>   // the entry a key handle was last filled with
    var dataAt: map<Handle, nat>
    var next: Handle              // handles from here on were never handed out

    ghost predicate Valid()
      reads this
    {
      && (forall h :: h in liveKeys ==> h < next)
      && (forall h :: h in liveData ==> h < next)
    }

    constructor (entries: seq<E>, mayFail: bool)
      ensures Valid() && table == entries && faulty == mayFail && liveKeys == {} && liveData == {}
    {
      table, faulty := entries, mayFail;
      liveKeys, liveData, keyAt, dataAt, next := {}, {}, map[], map[], 0;
    }

    /** A failure of the driver's own, at any time if there may be any. */
    method Fails() returns (fails: bool)
      ensures fails ==> faulty
    {
      fails := *;
      fails := fails && faulty;
    }

    method AllocateKeyData() returns (ok: bool, key: Handle, data: Handle)
      requires Valid()
      modifies this
      ensures Valid() && (!ok ==> faulty) && next >= old(next)
      ensures keyAt == old(keyAt) && dataAt == old(dataAt)
      ensures liveKeys >= old(liveKeys) && liveData >= old(liveData)
      ensures ok ==> key >= old(next) && data >= old(next) && key < next && data < next
      ensures ok ==> liveKeys == old(liveKeys) + {key} && liveData == old(liveData) + {data}
      ensures ok ==> |liveKeys| == |old(liveKeys)| + 1 && |liveData| == |old(liveData)| + 1
    {
      var fails := Fails();
      if fails {
        return false, 0, 0;
      }
      key := next;
      liveKeys := liveKeys + {key};
      next := next + 1;
      fails := Fails();
      if fails {
        return false, 0, 0;
      }
      data := next;
      liveData := liveData + {data};
      next := next + 1;
      ok := true;
    }

    method KeyDeallocate(h: Handle)
      requires Valid() && h in liveKeys
      modifies this`liveKeys
      ensures Valid() && liveKeys == old(liveKeys) - {h}
    {
      liveKeys := liveKeys - {h};
    }

    method DataDeallocate(h: Handle)
      requires Valid() && h in liveData
      modifies this`liveData
      ensures Valid() && liveData == old(liveData) - {h}
    {
      liveData := liveData - {h};
    }

    /** Fills the handles with the first entry; reports an empty table as not found. */
    method EntryGetFirst(key: Handle, data: Handle) returns (sts: int)
      requires Valid() && key in liveKeys && data in liveData
      modifies this`keyAt, this`dataAt
      ensures Valid()
      ensures sts == 0 ==> table != [] && keyAt == old(keyAt)[key := 0] && dataAt == old(dataAt)[data := 0]
      ensures sts == OBJECT_NOT_FOUND ==> table == []
      ensures sts != 0 && sts != OBJECT_NOT_FOUND ==> faulty
    {
      var fails := Fails();
      if fails {
        return 1;
      }
      if table == [] {
        return OBJECT_NOT_FOUND;
      }
      keyAt, dataAt := keyAt[key := 0], dataAt[data := 0];
      sts := 0;
    }

    /** Fills the handles with the entries that follow the one of `prev`: `n` of them, or all
        there are if they are fewer. */
    method EntryGetNextN(prev: Handle, keys: seq<Handle>, datas: seq<Handle>, n: nat)
      returns (sts: int, num: nat)
      requires Valid() && 1 <= n == |keys| == |datas|
      requires prev in liveKeys && prev in keyAt && keyAt[prev] < |table| && prev !in keys
      requires Distinct(keys) && Distinct(datas)
      requires forall h :: h in keys ==> h in liveKeys
      requires forall h :: h in datas ==> h in liveData
      modifies this`keyAt, this`dataAt
      ensures Valid() && num <= n
      ensures sts == 0 || sts == OBJECT_NOT_FOUND ==>
                num == Min(n, |table| - 1 - old(keyAt[prev])) &&
                Refer(keyAt, keys[..num], old(keyAt[prev]) + 1) && Refer(dataAt, datas[..num], old(keyAt[prev]) + 1)
      ensures forall h :: h in old(keyAt) && h !in keys ==> h in keyAt && keyAt[h] == old(keyAt[h])
      ensures forall h :: h in old(dataAt) && h !in datas ==> h in dataAt && dataAt[h] == old(dataAt[h])
      ensures sts != 0 && sts != OBJECT_NOT_FOUND ==> faulty
    {
      var fails := Fails();
      if fails {
        return 1, 0;
      }
      var start := keyAt[prev] + 1;
      num := Min(n, |table| - start);
      for i := 0 to num
        invariant Refer(keyAt, keys[..i], start) && Refer(dataAt, datas[..i], start)
        invariant forall h :: h in old(keyAt) && h !in keys ==> h in keyAt && keyAt[h] == old(keyAt[h])
        invariant forall h :: h in old(dataAt) && h !in datas ==> h in dataAt && dataAt[h] == old(dataAt[h])
      {
        keyAt, dataAt := keyAt[keys[i] := start + i], dataAt[datas[i] := start + i];
      }
      sts := if num < n then OBJECT_NOT_FOUND else 0;
    }
  }

  function Min(a: nat, b: nat): nat { if a < b then a else b }

  ghost predicate Distinct(hs: seq<Handle>) {
    forall i, j :: 0 <= i < j < |hs| ==> hs[i] != hs[j]
  }

  /** The handles refer to consecutive entries from `start` on. */
  ghost predicate Refer(at: map<Handle, nat>, hs: seq<Handle>, start: nat) {
    forall i :: 0 <= i < |hs| ==> hs[i] in at && at[hs[i]] == start + i
  }

  /** Live handles that were handed out from `limit` on. */
  ghost predicate Held(hs: seq<Handle>, live: set<Handle>, limit: Handle) {
    forall h :: h in hs ==> h in live && limit <= h
  }

  // ---------- The pages that should be printed ----------

  /** The entries cut into pages. */
  function Pages<E>(entries: seq<E>): seq<seq<E>>
    decreases |entries|
  {
    if entries == [] then []
    else var n := Min(PAGE, |entries|); [entries[..n]] + Pages(entries[n..])
  }

  function Flatten<E>(pages: seq<seq<E>>): seq<E> {
    if pages == [] then [] else pages[0] + Flatten(pages[1..])
  }

  /** The pages hold all entries once each in table order, there are just enough of them, none
      is empty and all but the last are full. */
  lemma {:induction false} PagesAreComplete<E>(entries: seq<E>)
    ensures Flatten(Pages(entries)) == entries
    ensures |Pages(entries)| == (|entries| + 19) / 20
    ensures forall i :: 0 <= i < |Pages(entries)| ==> 1 <= |Pages(entries)[i]| <= 20
    ensures forall i :: 0 <= i < |Pages(entries)| - 1 ==> |Pages(entries)[i]| == 20
    decreases |entries|
  {
    if entries != [] {
      var n := Min(PAGE, |entries|);
      PagesAreComplete(entries[n..]);
      assert Pages(entries)[1..] == Pages(entries[n..]);
      assert entries == entries[..n] + entries[n..];
    }
  }

  // ---------- get_first, get_next and the freeing of lists ----------

  datatype First = Entry(key: Handle, data: Handle) | Empty | FirstRaised
  datatype Next = More(keys: seq<Handle>, datas: seq<Handle>) | NextRaised

  method GetFirst<E>(d: Driver<E>, printEnts: bool) returns (r: First)
    requires d.Valid()
    modifies d
    ensures d.Valid() && d.next >= old(d.next)
    ensures d.liveKeys >= old(d.liveKeys) && d.liveData >= old(d.liveData)
    ensures r.Entry? ==> r.key >= old(d.next) && r.data >= old(d.next) && d.table != []
    ensures r.Entry? ==> d.liveKeys == old(d.liveKeys) + {r.key} && d.liveData == old(d.liveData) + {r.data}
    ensures r.Entry? ==> Refer(d.keyAt, [r.key], 0) && Refer(d.dataAt, [r.data], 0)
    ensures r.Empty? ==> d.table == [] && printEnts
    ensures r.Empty? || !d.faulty ==>
              |d.liveKeys| == |old(d.liveKeys)| + 1 && |d.liveData| == |old(d.liveData)| + 1
    ensures r.FirstRaised? ==> d.faulty || (d.table == [] && !printEnts)
  {
    var ok, key, data := d.AllocateKeyData();
    if !ok {
      return FirstRaised;
    }
    var sts := d.EntryGetFirst(key, data);
    if sts == 6 && printEnts {
      return Empty;
    }
    if sts != 0 {
      return FirstRaised;
    }
    r := Entry(key, data);
  }

  function Set(hs: seq<Handle>): set<Handle> { set h | h in hs }

  lemma {:induction false} SetSize(hs: seq<Handle>)
    requires Distinct(hs)
    ensures |Set(hs)| == |hs|
  {
    if hs == [] {
      assert Set(hs) == {};
    } else {
      var init, last := hs[..|hs| - 1], hs[|hs| - 1];
      SetSize(init);
      assert hs == init + [last];
      assert Set(hs) == Set(init) + {last};
      assert last !in init;
    }
  }

  method AllocateMany<E>(d: Driver<E>, n: nat) returns (ok: bool, keys: seq<Handle>, datas: seq<Handle>)
    requires d.Valid()
    modifies d
    ensures d.Valid() && (!ok ==> d.faulty) && d.next >= old(d.next)
    ensures d.keyAt == old(d.keyAt) && d.dataAt == old(d.dataAt)
    ensures d.liveKeys >= old(d.liveKeys) && d.liveData >= old(d.liveData)
    ensures ok ==> |keys| == |datas| == n && Distinct(keys) && Distinct(datas)
    ensures forall h :: h in keys || h in datas ==> old(d.next) <= h < d.next
    ensures ok ==> (forall h :: h in keys ==> h in d.liveKeys) && (forall h :: h in datas ==> h in d.liveData)
    ensures ok ==> |d.liveKeys| == |old(d.liveKeys)| + n && |d.liveData| == |old(d.liveData)| + n
  {
    keys, datas := [], [];
    for i := 0 to n
      invariant d.Valid() && d.next >= old(d.next)
      invariant d.keyAt == old(d.keyAt) && d.dataAt == old(d.dataAt)
      invariant |keys| == |datas| == i && Distinct(keys) && Distinct(datas)
      invariant forall h :: h in keys || h in datas ==> old(d.next) <= h < d.next
      invariant d.liveKeys >= old(d.liveKeys) && d.liveData >= old(d.liveData)
      invariant forall h :: h in keys ==> h in d.liveKeys
      invariant forall h :: h in datas ==> h in d.liveData
      invariant |d.liveKeys| == |old(d.liveKeys)| + i && |d.liveData| == |old(d.liveData)| + i
    {
      var key, data;
      ok, key, data := d.AllocateKeyData();
      if !ok {
        return;
      }
      keys, datas := keys + [key], datas + [data];
    }
    ok := true;
  }

  /** A driver without get-next-N yields nothing more.  The handles that were allocated but not
      filled are not returned, and nobody frees them. */
  method GetNext<E>(d: Driver<E>, supported: bool, prev: Handle, n: nat) returns (r: Next, ghost spare: nat)
    requires d.Valid() && 1 <= n
    requires prev in d.liveKeys && prev in d.keyAt && d.keyAt[prev] < |d.table|
    modifies d
    ensures d.Valid() && d.next >= old(d.next)
    ensures d.liveKeys >= old(d.liveKeys) && d.liveData >= old(d.liveData)
    ensures forall h :: h < old(d.next) && h in old(d.keyAt) ==> h in d.keyAt && d.keyAt[h] == old(d.keyAt[h])
    ensures forall h :: h < old(d.next) && h in old(d.dataAt) ==> h in d.dataAt && d.dataAt[h] == old(d.dataAt[h])
    ensures r.NextRaised? ==> d.faulty
    ensures r.More? ==> |r.keys| == |r.datas| && Distinct(r.keys) && Distinct(r.datas)
    ensures r.More? ==> Held(r.keys, d.liveKeys, old(d.next)) && Held(r.datas, d.liveData, old(d.next))
    ensures r.More? ==> |r.keys| == if supported then Min(n, |d.table| - 1 - old(d.keyAt[prev])) else 0
    ensures r.More? ==> Refer(d.keyAt, r.keys, old(d.keyAt[prev]) + 1)
    ensures r.More? ==> Refer(d.dataAt, r.datas, old(d.keyAt[prev]) + 1)
    ensures r.More? ==> spare == if supported then n - |r.keys| else 0
    ensures r.More? ==> |d.liveKeys| == |old(d.liveKeys)| + |r.keys| + spare
    ensures r.More? ==> |d.liveData| == |old(d.liveData)| + |r.datas| + spare
  {
    spare := 0;
    if !supported {
      return More([], []), 0;
    }
    var ok, keys, datas := AllocateMany(d, n);
    if !ok {
      return NextRaised, 0;
    }
    var sts, num := d.EntryGetNextN(prev, keys, datas, n);
    if sts != 0 && sts != 6 {
      return NextRaised, 0;
    }
    assert forall h :: h in keys[..num] ==> h in keys;
    assert forall h :: h in datas[..num] ==> h in datas;
    return More(keys[..num], datas[..num]), n - num;
  }

  method DeallocateHdls<E>(d: Driver<E>, keys: seq<Handle>, datas: seq<Handle>)
    requires d.Valid() && Distinct(keys) && Distinct(datas)
    requires Set(keys) <= d.liveKeys && Set(datas) <= d.liveData
    modifies d`liveKeys, d`liveData
    ensures d.Valid()
    ensures d.liveKeys == old(d.liveKeys) - Set(keys) && d.liveData == old(d.liveData) - Set(datas)
  {
    for i := 0 to |keys|
      invariant d.Valid() && d.liveData == old(d.liveData)
      invariant d.liveKeys == old(d.liveKeys) - Set(keys[..i])
    {
      assert keys[..i + 1] == keys[..i] + [keys[i]];
      assert keys[i] in Set(keys);
      d.KeyDeallocate(keys[i]);
    }
    assert keys[..|keys|] == keys;
    for i := 0 to |datas|
      invariant d.Valid() && d.liveKeys == old(d.liveKeys) - Set(keys)
      invariant d.liveData == old(d.liveData) - Set(datas[..i])
    {
      assert datas[..i + 1] == datas[..i] + [datas[i]];
      assert datas[i] in Set(datas);
      d.DataDeallocate(datas[i]);
    }
    assert datas[..|datas|] == datas;
  }

  // ---------- dump ----------

  /** The caller's handler reads each entry through its two handles, or raises. */
  method EntryHandler<E>(d: Driver<E>, keys: seq<Handle>, datas: seq<Handle>, mayRaise: bool, ghost start: nat)
    returns (ok: bool, page: seq<E>)
    requires |keys| == |datas| && start + |keys| <= |d.table|
    requires Set(keys) <= d.liveKeys && Set(datas) <= d.liveData
    requires Refer(d.keyAt, keys, start) && Refer(d.dataAt, datas, start)
    ensures !ok ==> mayRaise
    ensures ok ==> page == d.table[start..start + |keys|]
  {
    page := [];
    for i := 0 to |keys|
      invariant page == d.table[start..start + i]
    {
      ok := *;
      if !ok && mayRaise {
        return false, page;
      }
      page := page + [d.table[d.keyAt[keys[i]]]];
    }
    ok := true;
  }

  /** Hands a page out, then frees all its handles but the last key. */
  method HandOut<E>(d: Driver<E>, keys: seq<Handle>, datas: seq<Handle>, mayRaise: bool, ghost start: nat)
    returns (ok: bool, page: seq<E>, last: Handle)
    requires d.Valid() && keys != [] && |keys| == |datas| && start + |keys| <= |d.table|
    requires Distinct(keys) && Distinct(datas)
    requires forall h :: h in keys ==> h in d.liveKeys
    requires forall h :: h in datas ==> h in d.liveData
    requires Refer(d.keyAt, keys, start) && Refer(d.dataAt, datas, start)
    modifies d`liveKeys, d`liveData
    ensures d.Valid()
    ensures forall h :: h in old(d.liveKeys) && h !in keys ==> h in d.liveKeys
    ensures forall h :: h in old(d.liveData) && h !in datas ==> h in d.liveData
    ensures !ok ==> mayRaise && d.liveKeys == old(d.liveKeys) && d.liveData == old(d.liveData)
    ensures ok ==> page == d.table[start..start + |keys|]
    ensures ok ==> last == keys[|keys| - 1] && last in d.liveKeys
    ensures ok ==> |d.liveKeys| == |old(d.liveKeys)| - (|keys| - 1)
    ensures ok ==> |d.liveData| == |old(d.liveData)| - |datas|
  {
    last := keys[|keys| - 1];
    ok, page := EntryHandler(d, keys, datas, mayRaise, start);
    if !ok {
      return;
    }
    var freed := keys[..|keys| - 1];
    assert forall h :: h in freed ==> h in keys;
    SetSize(freed);
    SetSize(datas);
    DeallocateHdls(d, freed, datas);
  }

  datatype Outcome = Returned(code: int) | Raised

  lemma NextPage<E>(entries: seq<E>, pos: nat, n: nat)
    requires pos < |entries| && n == Min(PAGE, |entries| - pos)
    ensures Pages(entries[pos..]) == [entries[pos..pos + n]] + Pages(entries[pos + n..])
  {
    assert entries[pos..][..n] == entries[pos..pos + n];
    assert entries[pos..][n..] == entries[pos + n..];
  }

  /** The handles that were live before the dump; those it allocates start at `limit`. */
  datatype Owned = Owned(keys: set<Handle>, datas: set<Handle>, limit: Handle)

  ghost predicate Kept<E>(d: Driver<E>, before: Owned)
    reads d
  {
    && d.Valid() && before.keys <= d.liveKeys && before.datas <= d.liveData && before.limit <= d.next
    && (forall h :: h in before.keys || h in before.datas ==> h < before.limit)
  }

  /** What the dump has reached at the top of its loop: `pages` are the first pages, `prev` is
      the last key filled, of the handles of each page only its last key is still live, and no
      handle at hand is one of the caller's. */
  ghost predicate Midway<E>(d: Driver<E>, keys: seq<Handle>, datas: seq<Handle>, prev: Handle,
                            pages: seq<seq<E>>, before: Owned)
    reads d
  {
    var pos := PAGE * |pages|;
    && Kept(d, before)
    && prev in d.liveKeys && before.limit <= prev
    && prev in d.keyAt && d.keyAt[prev] + 1 == pos + |keys| <= |d.table|
    && |keys| == |datas| == (if pages == [] then 1 else 0)
    && (pages == [] ==> keys == [prev] && datas[0] in d.liveData && before.limit <= datas[0])
    && (pages == [] ==> Refer(d.keyAt, keys, 0) && Refer(d.dataAt, datas, 0))
    && Pages(d.table) == pages + Pages(d.table[pos..])
    && |d.liveKeys| == |before.keys| + |keys| + |pages|
    && |d.liveData| == |before.datas| + |datas|
  }

  /** How many key handles a complete dump leaves allocated: the unused ones of the last request
      and the last key of every full page but a final one. */
  function LeakedKeys(entries: nat): nat
    requires 1 <= entries
  {
    PAGE - entries % PAGE + if entries % PAGE == 0 then entries / PAGE - 1 else entries / PAGE
  }

  /** In other words: each of n / 20 + 1 requests allocates up to 20 handles, and what is freed are the
      keys of all entries but the last of each page that another page follows. */
  lemma LeakedIsAllocatedLessFreed(entries: nat)
    requires 1 <= entries
    ensures LeakedKeys(entries) == 20 * (entries / 20 + 1) - (entries - (entries - 1) / 20)
  {
  }

  ghost predicate Complete<E>(d: Driver<E>, supportsNext: bool, pages: seq<seq<E>>, before: Owned)
    reads d
  {
    d.table != [] &&
    if supportsNext then
      && pages == Pages(d.table)
      && |d.liveKeys| == |before.keys| + LeakedKeys(|d.table|)
      && |d.liveData| == |before.datas| + PAGE - |d.table| % PAGE
    else
      && pages == [d.table[..1]]
      && |d.liveKeys| == |before.keys|
      && |d.liveData| == |before.datas|
  }

  /** What is left allocated when the handler raises: the request of its turn and the last key of
      each page handed out before. */
  ghost predicate Abandoned<E>(d: Driver<E>, supportsNext: bool, pages: seq<seq<E>>, before: Owned)
    reads d
  {
    var held := if supportsNext then PAGE else 1;
    |d.liveKeys| == |before.keys| + |pages| + held && |d.liveData| == |before.datas| + held
  }

  datatype Turn = GoOn | Finished | TurnRaised

  lemma ShortPageIsLast(entries: nat, pages: nat, m: nat)
    requires entries == PAGE * pages + m && m < PAGE && 1 <= entries
    ensures LeakedKeys(entries) == pages + PAGE - m - (if m == 0 then 1 else 0)
    ensures entries % PAGE == m
  {
  }

  /** The handles at hand before a page is handed out refer to its entries. */
  ghost predicate PageReady<E>(d: Driver<E>, supportsNext: bool, keys: seq<Handle>, datas: seq<Handle>, held: nat,
                               pages: seq<seq<E>>, before: Owned)
    reads d
  {
    && |keys| == |datas| && Distinct(keys) && Distinct(datas)
    && Held(keys, d.liveKeys, before.limit) && Held(datas, d.liveData, before.limit)
    && PAGE * |pages| + |keys| <= |d.table|
    && |keys| == (if supportsNext then Min(PAGE, |d.table| - PAGE * |pages|) else held)
    && Refer(d.keyAt, keys, PAGE * |pages|) && Refer(d.dataAt, datas, PAGE * |pages|)
    && |d.liveKeys| == |before.keys| + |pages| + (if supportsNext then PAGE else held)
    && |d.liveData| == |before.datas| + (if supportsNext then PAGE else held)
  }

  /** The request of one turn: the handles at hand and the new ones refer to consecutive entries. */
  method Collect<E>(d: Driver<E>, supportsNext: bool, keys: seq<Handle>, datas: seq<Handle>, prev: Handle,
                    ghost pages: seq<seq<E>>, ghost before: Owned)
    returns (ok: bool, keyHdls: seq<Handle>, dataHdls: seq<Handle>)
    requires Midway(d, keys, datas, prev, pages, before)
    modifies d
    ensures Kept(d, before)
    ensures !ok ==> d.faulty
    ensures ok ==> prev in d.liveKeys && PageReady(d, supportsNext, keyHdls, dataHdls, |keys|, pages, before)
  {
    hide Pages, Distinct, Refer, Held;
    ghost var next0, keyAt0, dataAt0, keys0, datas0 := d.next, d.keyAt, d.dataAt, d.liveKeys, d.liveData;
    FirstHeld(d, keys, datas, prev, pages, before);
    var next, spare := GetNext(d, supportsNext, prev, PAGE - |keys|);
    if next.NextRaised? {
      return false, [], [];
    }
    StillRefer(keyAt0, d.keyAt, keys, PAGE * |pages|, next0);
    StillRefer(dataAt0, d.dataAt, datas, PAGE * |pages|, next0);
    StillHeld(keys, keys0, d.liveKeys, before.limit, before.limit);
    StillHeld(datas, datas0, d.liveData, before.limit, before.limit);
    JoinLists(d.keyAt, keys, next.keys, PAGE * |pages|, d.liveKeys, before.limit, next0);
    JoinLists(d.dataAt, datas, next.datas, PAGE * |pages|, d.liveData, before.limit, next0);
    ok, keyHdls, dataHdls := true, keys + next.keys, datas + next.datas;
  }

  lemma FirstHeld<E>(d: Driver<E>, keys: seq<Handle>, datas: seq<Handle>, prev: Handle,
                     pages: seq<seq<E>>, before: Owned)
    requires Midway(d, keys, datas, prev, pages, before)
    ensures Held(keys, d.liveKeys, before.limit) && Held(datas, d.liveData, before.limit)
    ensures forall h :: h in keys || h in datas ==> h < d.next
  {
    hide Pages, Refer;
  }

  lemma StillHeld(hs: seq<Handle>, live0: set<Handle>, live: set<Handle>, limit0: Handle, limit: Handle)
    requires Held(hs, live0, limit0) && live0 <= live && limit <= limit0
    ensures Held(hs, live, limit)
  {
  }

  /** What was filled before still is after handles from `next` on were filled. */
  lemma StillRefer(at0: map<Handle, nat>, at: map<Handle, nat>, hs: seq<Handle>, start: nat, next: Handle)
    requires hs != [] ==> Refer(at0, hs, start)
    requires forall h :: h in hs ==> h < next
    requires forall h :: h < next && h in at0 ==> h in at && at[h] == at0[h]
    ensures Refer(at, hs, start)
  {
    forall i | 0 <= i < |hs|
      ensures hs[i] in at && at[hs[i]] == start + i
    {
      assert hs[i] in hs;
    }
  }

  lemma JoinLists(at: map<Handle, nat>, a: seq<Handle>, b: seq<Handle>, start: nat,
                  live: set<Handle>, limit: Handle, next: Handle)
    requires |a| <= 1 && limit <= next && forall h :: h in a ==> h < next
    requires Distinct(b) && Refer(at, a, start) && Refer(at, b, start + |a|)
    requires Held(a, live, limit) && Held(b, live, next)
    ensures Distinct(a + b) && Refer(at, a + b, start) && Held(a + b, live, limit)
  {
    if a != [] {
      assert a[0] in a && a[0] !in b;
    }
  }

  /** Nothing more came: the dump ends with the pages it has. */
  method FinishWithout<E>(d: Driver<E>, held: nat, prev: Handle, pages: seq<seq<E>>, ghost before: Owned)
    requires Kept(d, before) && prev in d.liveKeys && before.limit <= prev
    requires PageReady(d, true, [], [], held, pages, before) && pages != []
    requires Pages(d.table) == pages + Pages(d.table[PAGE * |pages|..])
    modifies d`liveKeys
    ensures Kept(d, before) && Complete(d, true, pages, before)
  {
    d.KeyDeallocate(prev);
    ShortPageIsLast(|d.table|, |pages|, 0);
  }

  /** Hand a page out, and end the dump after a short one. */
  method FinishPage<E>(d: Driver<E>, supportsNext: bool, keyHdls: seq<Handle>, dataHdls: seq<Handle>, mayRaise: bool,
                       pages0: seq<seq<E>>, ghost before: Owned)
    returns (turn: Turn, pages: seq<seq<E>>, last: Handle)
    requires Kept(d, before) && keyHdls != [] && (!supportsNext ==> pages0 == [] && |keyHdls| == 1)
    requires PageReady(d, supportsNext, keyHdls, dataHdls, 1, pages0, before)
    requires Pages(d.table) == pages0 + Pages(d.table[PAGE * |pages0|..])
    modifies d`liveKeys, d`liveData
    ensures Kept(d, before)
    ensures turn.GoOn? ==> supportsNext && |pages| == |pages0| + 1 && Midway(d, [], [], last, pages, before)
    ensures turn.Finished? ==> Complete(d, supportsNext, pages, before)
    ensures turn.TurnRaised? ==> mayRaise && pages == pages0 && Abandoned(d, supportsNext, pages, before)
  {
    hide Pages, Distinct;
    pages := pages0;
    ghost var pos := PAGE * |pages0|;
    var ok, page;
    ok, page, last := HandOut(d, keyHdls, dataHdls, mayRaise, pos);
    if !ok {
      return TurnRaised, pages, last;
    }
    assert last in keyHdls;
    pages := pages + [page];
    if supportsNext {
      NextPage(d.table, pos, |keyHdls|);
      Reassociate(pages0, page, Pages(d.table[pos + |keyHdls|..]));
    }
    if |keyHdls| < PAGE {
      d.KeyDeallocate(last);
      if supportsNext {
        ShortPageIsLast(|d.table|, |pages0|, |keyHdls|);
        NoMorePages(d.table);
      }
      return Finished, pages, last;
    }
    turn := GoOn;
  }

  lemma Reassociate<E>(pages: seq<seq<E>>, page: seq<E>, rest: seq<seq<E>>)
    ensures pages + ([page] + rest) == (pages + [page]) + rest
  {
  }

  lemma NoMorePages<E>(entries: seq<E>)
    ensures Pages(entries[|entries|..]) == []
  {
  }

  /** One turn of the loop. */
  method NextTurn<E>(d: Driver<E>, supportsNext: bool, keys: seq<Handle>, datas: seq<Handle>, prev: Handle,
                     mayRaise: bool, pages0: seq<seq<E>>, ghost before: Owned)
    returns (turn: Turn, pages: seq<seq<E>>, last: Handle)
    requires Midway(d, keys, datas, prev, pages0, before) && (!supportsNext ==> pages0 == [])
    modifies d
    ensures Kept(d, before)
    ensures turn.GoOn? ==> supportsNext && |pages| == |pages0| + 1 && Midway(d, [], [], last, pages, before)
    ensures turn.Finished? ==> Complete(d, supportsNext, pages, before)
    ensures turn.TurnRaised? ==> pages == pages0
    ensures turn.TurnRaised? && !d.faulty ==> mayRaise && Abandoned(d, supportsNext, pages, before)
  {
    hide Pages, Distinct, Refer;
    pages, last := pages0, prev;
    var ok, keyHdls, dataHdls := Collect(d, supportsNext, keys, datas, prev, pages0, before);
    if !ok {
      return TurnRaised, pages, last;
    }
    if |keyHdls| == 0 {
      FinishWithout(d, |keys|, prev, pages, before);
      return Finished, pages, last;
    }
    turn, pages, last := FinishPage(d, supportsNext, keyHdls, dataHdls, mayRaise, pages0, before);
  }

  /** Each entry is handed out exactly once in table order, in full pages but for the last.  If
      something raises, the pages handed out before are the first of those pages.  Unless the
      driver fails, the handles left allocated are counted exactly in every case.  That no handle
      is freed twice or used after it was freed is what the preconditions of the driver demand of
      this code, and whatever happens the caller keeps the handles it had. */
  method Dump<E>(d: Driver<E>, supportsFirst: bool, supportsNext: bool, printEnts: bool, handlerMayRaise: bool)
    returns (r: Outcome, pages: seq<seq<E>>)
    requires d.Valid()
    modifies d
    ensures d.Valid() && old(d.liveKeys) <= d.liveKeys && old(d.liveData) <= d.liveData
    ensures !supportsFirst ==>
              r == Returned(0) && pages == [] && d.liveKeys == old(d.liveKeys) && d.liveData == old(d.liveData)
    ensures pages <= Pages(d.table) || (!supportsNext && d.table != [] && pages == [d.table[..1]])
    ensures supportsFirst && r == Returned(0) ==>
              Complete(d, supportsNext, pages, Owned(old(d.liveKeys), old(d.liveData), old(d.next)))
    ensures r == Returned(-1) ==> d.table == [] && printEnts
    ensures r == Returned(-1) || (r.Raised? && d.table == [] && !d.faulty) ==>
              |d.liveKeys| == |old(d.liveKeys)| + 1 && |d.liveData| == |old(d.liveData)| + 1
    ensures r.Raised? && d.table != [] && !d.faulty ==>
              Abandoned(d, supportsNext, pages, Owned(old(d.liveKeys), old(d.liveData), old(d.next)))
    ensures supportsFirst && !d.faulty && !handlerMayRaise ==>
              r == if d.table != [] then Returned(0) else if printEnts then Returned(-1) else Raised
  {
    pages := [];
    if !supportsFirst {
      return Returned(0), pages;
    }
    ghost var before := Owned(d.liveKeys, d.liveData, d.next);
    var first := GetFirst(d, printEnts);
    if first.Empty? {
      return Returned(-1), pages;
    }
    if first.FirstRaised? {
      return Raised, pages;
    }
    var keyHdls, dataHdls, prevKeyHdl := [first.key], [first.data], first.key;
    assert d.table[0..] == d.table && keyHdls[0] == prevKeyHdl && dataHdls[0] == first.data;
    while true
      invariant Midway(d, keyHdls, dataHdls, prevKeyHdl, pages, before)
      invariant !supportsNext ==> pages == []
      decreases |d.table| - PAGE * |pages|
    {
      var turn;
      turn, pages, prevKeyHdl :=
        NextTurn(d, supportsNext, keyHdls, dataHdls, prevKeyHdl, handlerMayRaise, pages, before);
      if turn.TurnRaised? {
        return Raised, pages;
      }
      if turn.Finished? {
        return Returned(0), pages;
      }
      keyHdls, dataHdls := [], [];
    }
  }
}
