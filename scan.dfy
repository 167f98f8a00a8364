/** The scan loop of `run`: the module state (cursor, lastTotalPages,
    looping), the cursor file, the document store, and the backward sweep
    over catalog pages that stores every comic not yet stored. */
module Scan {
  import opened Remote
  import opened Assembler
  import opened Records
  import opened Cursor

  datatype Option<T> = None | Some(value: T)

  // ---------------------------------------------------------------------
  // The sweep as functions of the state it starts from

  /** The outcome of walking one page's comics: whether every one was
      handled, the store afterwards, and the identities written, in order. */
  datatype PageSync = PageSync(ok: bool, records: map<Id, CosplayRecord>, inserted: seq<Id>)

  /** The items of one catalog page in order: a comic already stored is
      skipped; any other is assembled and written, and the first failed
      assembly ends the page. */
  function SyncItems(remote: Remote, docs: seq<Comic>, records: map<Id, CosplayRecord>): PageSync
    requires remote.Wf()
  {
    if docs == [] then PageSync(true, records, [])
    else if docs[0].id in records then SyncItems(remote, docs[1..], records)
    else
      match Assemble(remote, docs[0])
      case Failed => PageSync(false, records, [])
      case Ok(data) =>
        var rest := SyncItems(remote, docs[1..], records[data.id := ToRecord(data)]);
        rest.(inserted := [data.id] + rest.inserted)
  }

  /** Everything the sweep changes: the cursor pair, the cursor file (None
      while it does not exist), the store, and, as a record of what happened,
      the catalog pages requested and the identities written. */
  datatype Sweep = Sweep(
    state: CursorState,
    persisted: Option<CursorState>,
    records: map<Id, CosplayRecord>,
    requested: seq<int>,
    inserted: seq<Id>)

  /** How much the last seen total can still grow under the remote's bound. */
  function Headroom(last: int, bound: nat): nat {
    if last < bound then bound - last else 0
  }

  /** The store and the writes after a page's comics were walked. */
  function Absorb(s: Sweep, items: PageSync): Sweep {
    s.(records := items.records, inserted := s.inserted + items.inserted)
  }

  /** `loop`: stop below page 1; otherwise fetch the page at the cursor; on
      failure write the cursor file and stop; on growth reconcile and step
      one further back; walk the page's comics; if one fails write the
      cursor file and stop, else move one page toward the front and go on. */
  function Loop(remote: Remote, s: Sweep): Sweep
    requires remote.Wf()
    decreases Headroom(s.state.lastTotalPages, remote.maxPages), s.state.cursor
  {
    var dirtPage := s.state.cursor;
    if dirtPage < 1 then s
    else
      var asked := s.(requested := s.requested + [dirtPage]);
      match remote.catalog(dirtPage)
      case Failed => asked.(persisted := Some(s.state))
      case Ok(page) =>
        var grown := Regrow(s.state, page.pages);
        var synced := Absorb(asked, SyncItems(remote, page.docs, s.records)).(state := grown);
        if SyncItems(remote, page.docs, s.records).ok then Loop(remote, synced.(state := grown.(cursor := grown.cursor - 1)))
        else synced.(persisted := Some(grown))
  }

  /** `run` when no sweep is active: ask for the current total (a failure
      ends `run` with nothing else changed), reconcile, sweep, and finally
      reset a cursor at or below zero to 1 and write the cursor file. */
  function RunSpec(remote: Remote, s: Sweep): Sweep
    requires remote.Wf()
  {
    var asked := s.(requested := s.requested + [1]);
    match remote.catalog(1)
    case Failed => asked
    case Ok(first) =>
      var start := Reconcile(s.state, first.pages);
      var written := if ReconcileWrites(s.state, first.pages) then Some(start) else s.persisted;
      var swept := Loop(remote, asked.(state := start, persisted := written));
      var done := Finish(swept.state);
      swept.(state := done, persisted := Some(done))
  }

  /** At most one write per identity: the identities written are distinct
      and all of them are in the store. */
  ghost predicate OnceEach(s: Sweep) {
    && (forall i, j :: 0 <= i < j < |s.inserted| ==> s.inserted[i] != s.inserted[j])
    && (forall i :: 0 <= i < |s.inserted| ==> s.inserted[i] in s.records)
  }

  function Ids(docs: seq<Comic>): seq<Id> {
    seq(|docs|, i requires 0 <= i < |docs| => docs[i].id)
  }

  // ---------------------------------------------------------------------
  // Properties of one page's comics

  /** No stored record is changed or removed, and the store afterwards holds
      exactly the old identities and the ones written. */
  ghost predicate KeepsStore(before: map<Id, CosplayRecord>, r: PageSync) {
    && (forall id :: id in before ==> id in r.records && r.records[id] == before[id])
    && (forall id :: id in r.records <==> id in before || id in r.inserted)
  }

  /** Only identities of the page's comics that were absent are written,
      each once. */
  ghost predicate WritesFresh(before: map<Id, CosplayRecord>, docs: seq<Comic>, r: PageSync) {
    && (forall i :: 0 <= i < |r.inserted| ==> r.inserted[i] !in before && r.inserted[i] in Ids(docs))
    && (forall i, j :: 0 <= i < j < |r.inserted| ==> r.inserted[i] != r.inserted[j])
  }

  /** Every identity written is stored with a conforming record. */
  ghost predicate WritesConform(r: PageSync) {
    forall i :: 0 <= i < |r.inserted| ==> r.inserted[i] in r.records && Conforms(r.records[r.inserted[i]])
  }

  /** The page stopped at position k: that comic is absent and could not be
      assembled, every comic before it is stored, and only comics before it
      were written. */
  ghost predicate StoppedAt(remote: Remote, docs: seq<Comic>, r: PageSync, k: int)
    requires remote.Wf()
  {
    && 0 <= k < |docs|
    && docs[k].id !in r.records
    && Assemble(remote, docs[k]).Failed?
    && (forall j :: 0 <= j < k ==> docs[j].id in r.records)
    && (forall i :: 0 <= i < |r.inserted| ==> r.inserted[i] in Ids(docs[..k]))
  }

  /** Walking a page never changes or removes a stored record. */
  lemma {:induction false} SyncItemsKeeps(remote: Remote, docs: seq<Comic>, records: map<Id, CosplayRecord>)
    requires remote.Wf()
    ensures KeepsStore(records, SyncItems(remote, docs, records))
  {
    if docs != [] {
      if docs[0].id in records {
        SyncItemsKeeps(remote, docs[1..], records);
      } else if Assemble(remote, docs[0]).Ok? {
        var data := Assemble(remote, docs[0]).value;
        AssembleKeepsId(remote, docs[0]);
        SyncItemsKeeps(remote, docs[1..], records[data.id := ToRecord(data)]);
      }
    }
  }

  /** Walking a page writes only identities of the page's comics that were
      absent from the store, and each of them once. */
  lemma {:induction false} SyncItemsFresh(remote: Remote, docs: seq<Comic>, records: map<Id, CosplayRecord>)
    requires remote.Wf()
    ensures WritesFresh(records, docs, SyncItems(remote, docs, records))
  {
    if docs != [] {
      var rest := docs[1..];
      IdsTail(docs);
      if docs[0].id in records {
        SyncItemsFresh(remote, rest, records);
      } else if Assemble(remote, docs[0]).Ok? {
        var data := Assemble(remote, docs[0]).value;
        AssembleKeepsId(remote, docs[0]);
        var next := records[data.id := ToRecord(data)];
        SyncItemsFresh(remote, rest, next);
        assert Ids(docs)[0] == data.id;
        FreshCons(records, docs, data.id, ToRecord(data), SyncItems(remote, rest, next));
      }
    }
  }

  /** Writing x ahead of a tail written into the store that already holds x
      keeps the writes fresh and distinct. */
  lemma FreshCons(records: map<Id, CosplayRecord>, docs: seq<Comic>, x: Id, rec: CosplayRecord, tail: PageSync)
    requires docs != [] && x !in records && x in Ids(docs)
    requires forall id :: id in Ids(docs[1..]) ==> id in Ids(docs)
    requires WritesFresh(records[x := rec], docs[1..], tail)
    ensures WritesFresh(records, docs, tail.(inserted := [x] + tail.inserted))
  {
    var ins := [x] + tail.inserted;
    forall i | 0 <= i < |ins| ensures ins[i] !in records && ins[i] in Ids(docs) {
      if i > 0 { assert ins[i] == tail.inserted[i - 1]; }
    }
    forall i, j | 0 <= i < j < |ins| ensures ins[i] != ins[j] {
      assert ins[j] == tail.inserted[j - 1];
      if i > 0 { assert ins[i] == tail.inserted[i - 1]; }
    }
  }

  /** Every record written is the conforming mapping of an assembled comic. */
  lemma {:induction false} SyncItemsConforms(remote: Remote, docs: seq<Comic>, records: map<Id, CosplayRecord>)
    requires remote.Wf()
    ensures WritesConform(SyncItems(remote, docs, records))
  {
    if docs != [] {
      var rest := docs[1..];
      if docs[0].id in records {
        SyncItemsConforms(remote, rest, records);
      } else if Assemble(remote, docs[0]).Ok? {
        var data := Assemble(remote, docs[0]).value;
        AssembleKeepsId(remote, docs[0]);
        ToRecordFaithful(data);
        var next := records[data.id := ToRecord(data)];
        SyncItemsConforms(remote, rest, next);
        SyncItemsKeeps(remote, rest, next);
        var tail := SyncItems(remote, rest, next);
        var r := SyncItems(remote, docs, records);
        assert r.inserted == [data.id] + tail.inserted;
        forall i | 0 <= i < |r.inserted|
          ensures r.inserted[i] in r.records && Conforms(r.records[r.inserted[i]])
        {
          if i > 0 { assert r.inserted[i] == tail.inserted[i - 1]; }
        }
      }
    }
  }

  /** Identities of a page's tail are identities of the page. */
  lemma IdsTail(docs: seq<Comic>)
    requires docs != []
    ensures forall id :: id in Ids(docs[1..]) ==> id in Ids(docs)
  {
    forall id | id in Ids(docs[1..]) ensures id in Ids(docs) {
      var k :| 0 <= k < |docs| - 1 && Ids(docs[1..])[k] == id;
      assert Ids(docs)[k + 1] == id;
    }
  }

  /** A page walked to its end leaves every comic on it stored. */
  lemma {:induction false} SyncItemsCompletes(remote: Remote, docs: seq<Comic>, records: map<Id, CosplayRecord>)
    requires remote.Wf()
    requires SyncItems(remote, docs, records).ok
    ensures forall c :: c in docs ==> c.id in SyncItems(remote, docs, records).records
  {
    if docs != [] {
      var rest := docs[1..];
      if docs[0].id in records {
        SyncItemsCompletes(remote, rest, records);
        SyncItemsKeeps(remote, rest, records);
      } else {
        var data := Assemble(remote, docs[0]).value;
        var next := records[data.id := ToRecord(data)];
        SyncItemsCompletes(remote, rest, next);
        SyncItemsKeeps(remote, rest, next);
      }
      forall c | c in docs ensures c.id in SyncItems(remote, docs, records).records {
        if c != docs[0] { assert c in rest; }
      }
    }
  }

  /** A page that fails stops at the first comic that was absent and could
      not be assembled. */
  lemma {:induction false} SyncItemsStopsAtFailure(remote: Remote, docs: seq<Comic>, records: map<Id, CosplayRecord>)
    requires remote.Wf()
    requires !SyncItems(remote, docs, records).ok
    ensures exists k :: StoppedAt(remote, docs, SyncItems(remote, docs, records), k)
  {
    var r := SyncItems(remote, docs, records);
    var rest := docs[1..];
    if docs[0].id in records {
      SyncItemsStopsAtFailure(remote, rest, records);
      SyncItemsKeeps(remote, rest, records);
      var k :| StoppedAt(remote, rest, r, k);
      WitnessShift(remote, docs, k, r);
    } else if Assemble(remote, docs[0]).Failed? {
      assert StoppedAt(remote, docs, r, 0);
    } else {
      var data := Assemble(remote, docs[0]).value;
      var next := records[data.id := ToRecord(data)];
      AssembleKeepsId(remote, docs[0]);
      SyncItemsStopsAtFailure(remote, rest, next);
      SyncItemsKeeps(remote, rest, next);
      var tail := SyncItems(remote, rest, next);
      var k :| StoppedAt(remote, rest, tail, k);
      WitnessShift(remote, docs, k, r);
    }
  }

  /** Position k of the tail is position k + 1 of the page. */
  lemma WitnessShift(remote: Remote, docs: seq<Comic>, k: nat, r: PageSync)
    requires remote.Wf()
    requires k + 1 < |docs|
    requires docs[0].id in r.records
    requires docs[k + 1].id !in r.records && Assemble(remote, docs[k + 1]).Failed?
    requires forall j :: 0 <= j < k ==> docs[1..][j].id in r.records
    requires forall i :: 0 <= i < |r.inserted| ==>
      r.inserted[i] == docs[0].id || r.inserted[i] in Ids(docs[1..][..k])
    ensures StoppedAt(remote, docs, r, k + 1)
  {
    forall j | 0 <= j < k + 1 ensures docs[j].id in r.records {
      if j > 0 { assert docs[j] == docs[1..][j - 1]; }
    }
    forall i | 0 <= i < |r.inserted| ensures r.inserted[i] in Ids(docs[..k + 1]) {
      if r.inserted[i] == docs[0].id {
        assert Ids(docs[..k + 1])[0] == docs[0].id;
      } else {
        var m :| 0 <= m < k && Ids(docs[1..][..k])[m] == r.inserted[i];
        assert Ids(docs[..k + 1])[m + 1] == r.inserted[i];
      }
    }
  }

  /** A page whose comics can all be assembled is walked to its end. */
  lemma {:induction false} SyncItemsSucceeds(remote: Remote, docs: seq<Comic>, records: map<Id, CosplayRecord>)
    requires remote.Wf()
    requires forall c :: c in docs ==> Assemble(remote, c).Ok?
    ensures SyncItems(remote, docs, records).ok
  {
    if docs != [] {
      var rest := docs[1..];
      assert forall c :: c in rest ==> c in docs;
      if docs[0].id in records {
        SyncItemsSucceeds(remote, rest, records);
      } else {
        var data := Assemble(remote, docs[0]).value;
        SyncItemsSucceeds(remote, rest, records[data.id := ToRecord(data)]);
      }
    }
  }

  // ---------------------------------------------------------------------
  // Properties of the sweep

  /** How the store and the writes may move from s to t: no stored record
      is changed or removed, the earlier writes are kept, every later write
      is of an identity absent from s, distinct from the other later writes
      and stored with a conforming record, and nothing else is stored. */
  ghost predicate Grows(s: Sweep, t: Sweep) {
    && (forall id :: id in s.records ==> id in t.records && t.records[id] == s.records[id])
    && (forall id :: id in t.records ==> id in s.records || id in t.inserted)
    && |s.inserted| <= |t.inserted|
    && t.inserted[..|s.inserted|] == s.inserted
    && (forall i :: |s.inserted| <= i < |t.inserted| ==>
          && t.inserted[i] !in s.records
          && t.inserted[i] in t.records
          && Conforms(t.records[t.inserted[i]]))
    && (forall i, j :: |s.inserted| <= i < j < |t.inserted| ==> t.inserted[i] != t.inserted[j])
  }

  lemma GrowsRefl(s: Sweep)
    ensures Grows(s, s)
  {
    assert s.inserted[..|s.inserted|] == s.inserted;
  }

  lemma GrowsTrans(a: Sweep, b: Sweep, c: Sweep)
    requires Grows(a, b) && Grows(b, c)
    ensures Grows(a, c)
  {
    forall i | |a.inserted| <= i < |b.inserted| ensures c.inserted[i] == b.inserted[i] {
      assert c.inserted[..|b.inserted|][i] == b.inserted[i];
    }
    forall i | 0 <= i < |a.inserted| ensures c.inserted[i] == a.inserted[i] {
      assert c.inserted[..|b.inserted|][i] == b.inserted[i];
      assert b.inserted[..|a.inserted|][i] == a.inserted[i];
    }
    assert c.inserted[..|a.inserted|] == a.inserted;
    forall id | id in c.records ensures id in a.records || id in c.inserted {
      if id !in a.records && id in b.records {
        var i :| 0 <= i < |b.inserted| && b.inserted[i] == id;
        if i < |a.inserted| {
          assert b.inserted[..|a.inserted|][i] == a.inserted[i];
        }
        assert c.inserted[..|b.inserted|][i] == id;
      }
    }
  }

  /** Walking one page's comics grows the store as `Grows` allows. */
  lemma SyncGrows(remote: Remote, s: Sweep, docs: seq<Comic>)
    requires remote.Wf()
    ensures Grows(s, Absorb(s, SyncItems(remote, docs, s.records)))
  {
    var items := SyncItems(remote, docs, s.records);
    var t := Absorb(s, items);
    SyncItemsKeeps(remote, docs, s.records);
    SyncItemsFresh(remote, docs, s.records);
    SyncItemsConforms(remote, docs, s.records);
    assert t.inserted[..|s.inserted|] == s.inserted;
    forall i | |s.inserted| <= i < |t.inserted| ensures t.inserted[i] == items.inserted[i - |s.inserted|] {
    }
    forall id | id in t.records ensures id in s.records || id in t.inserted {
      if id !in s.records {
        var i :| 0 <= i < |items.inserted| && items.inserted[i] == id;
        assert t.inserted[|s.inserted| + i] == id;
      }
    }
  }

  /** One step of the sweep. Below page 1 nothing is requested or changed.
      A failed page request leaves the cursor pair as it was, writes it to
      the cursor file and ends the sweep. A page walked to its end moves the
      cursor by `AfterPage`: exactly one page toward the front without
      growth, to the reconciled position with growth. */
  lemma LoopSteps(remote: Remote, s: Sweep)
    requires remote.Wf()
    ensures s.state.cursor < 1 ==> Loop(remote, s) == s
    ensures 1 <= s.state.cursor && remote.catalog(s.state.cursor).Failed? ==>
      Loop(remote, s) == s.(requested := s.requested + [s.state.cursor], persisted := Some(s.state))
    ensures 1 <= s.state.cursor && remote.catalog(s.state.cursor).Ok? ==>
      var page := remote.catalog(s.state.cursor).value;
      SyncItems(remote, page.docs, s.records).ok ==>
        Loop(remote, s) == Loop(remote, Absorb(s.(requested := s.requested + [s.state.cursor]),
          SyncItems(remote, page.docs, s.records)).(state := AfterPage(s.state, page.pages)))
  {
  }

  /** The whole sweep grows the store as `Grows` allows. */
  lemma {:induction false} LoopGrows(remote: Remote, s: Sweep)
    requires remote.Wf()
    ensures Grows(s, Loop(remote, s))
    decreases Headroom(s.state.lastTotalPages, remote.maxPages), s.state.cursor
  {
    var dirtPage := s.state.cursor;
    if dirtPage < 1 {
      GrowsRefl(s);
    } else {
      var asked := s.(requested := s.requested + [dirtPage]);
      match remote.catalog(dirtPage)
      case Failed => GrowsRefl(s);
      case Ok(page) =>
        var grown := Regrow(s.state, page.pages);
        SyncGrows(remote, asked, page.docs);
        var synced := Absorb(asked, SyncItems(remote, page.docs, s.records)).(state := grown);
        if SyncItems(remote, page.docs, s.records).ok {
          var next := synced.(state := grown.(cursor := grown.cursor - 1));
          LoopGrows(remote, next);
          GrowsTrans(s, next, Loop(remote, next));
        }
    }
  }

  /** A store with at most one write per identity keeps that property
      under any growth `Grows` allows. */
  lemma GrowsKeepsOnceEach(s: Sweep, t: Sweep)
    requires OnceEach(s) && Grows(s, t)
    ensures OnceEach(t)
  {
    forall i | 0 <= i < |s.inserted| ensures t.inserted[i] == s.inserted[i] {
      assert t.inserted[..|s.inserted|][i] == s.inserted[i];
    }
  }

  /** How a sweep may end: walked down to a cursor of 0 with the cursor
      file as it was, or stopped by a failure with a cursor of at least 1
      written to the cursor file for the next run to resume from. */
  ghost predicate EndedWell(s: Sweep, r: Sweep) {
    || (r.state.cursor == 0 && r.persisted == s.persisted)
    || (1 <= r.state.cursor && r.persisted == Some(r.state))
  }

  /** The sweep keeps the cursor pair in range, never lowers the total,
      and ends as `EndedWell` says. */
  lemma {:induction false} LoopInRange(remote: Remote, s: Sweep)
    requires remote.Wf() && InRange(s.state)
    ensures InRange(Loop(remote, s).state)
    ensures s.state.lastTotalPages <= Loop(remote, s).state.lastTotalPages
    ensures EndedWell(s, Loop(remote, s))
    decreases Headroom(s.state.lastTotalPages, remote.maxPages), s.state.cursor
  {
    var dirtPage := s.state.cursor;
    if dirtPage >= 1 {
      match remote.catalog(dirtPage)
      case Failed =>
      case Ok(page) =>
        RegrowInRange(s.state, page.pages);
        var grown := Regrow(s.state, page.pages);
        var synced := Absorb(s.(requested := s.requested + [dirtPage]), SyncItems(remote, page.docs, s.records)).(state := grown);
        if SyncItems(remote, page.docs, s.records).ok {
          var next := synced.(state := grown.(cursor := grown.cursor - 1));
          LoopInRange(remote, next);
        }
    }
  }

  /** Page numbers n, n - 1, ..., 1. */
  function Countdown(n: int): seq<int>
    decreases n
  {
    if n <= 0 then [] else [n] + Countdown(n - 1)
  }

  lemma CountdownStep(done: seq<int>, n: int)
    requires 1 <= n
    ensures done + [n] + Countdown(n - 1) == done + Countdown(n)
  {
    assert Countdown(n) == [n] + Countdown(n - 1);
    assert (done + [n]) + Countdown(n - 1) == done + ([n] + Countdown(n - 1));
  }

  /** Pages 1 to n can be walked to their ends without growth of the total. */
  ghost predicate Steady(remote: Remote, n: int, last: int)
    requires remote.Wf()
  {
    forall p :: 1 <= p <= n ==>
      && remote.catalog(p).Ok?
      && remote.catalog(p).value.pages <= last
      && forall c :: c in remote.catalog(p).value.docs ==> Assemble(remote, c).Ok?
  }

  /** Every comic listed on pages 1 to n is stored. */
  ghost predicate StoredAll(remote: Remote, n: int, records: map<Id, CosplayRecord>) {
    forall p, c :: 1 <= p <= n && remote.catalog(p).Ok? && c in remote.catalog(p).value.docs ==> c.id in records
  }

  /** A sweep that meets no failure and no growth requests the pages from
      the cursor down to 1 in that order, ends at cursor 0 with the total
      and the cursor file unchanged, and leaves every comic on those pages
      stored. */
  lemma {:induction false} SteadySweep(remote: Remote, s: Sweep)
    requires remote.Wf() && 0 <= s.state.cursor
    requires Steady(remote, s.state.cursor, s.state.lastTotalPages)
    ensures Loop(remote, s).state == s.state.(cursor := 0)
    ensures Loop(remote, s).persisted == s.persisted
    ensures Loop(remote, s).requested == s.requested + Countdown(s.state.cursor)
    ensures StoredAll(remote, s.state.cursor, Loop(remote, s).records)
    decreases s.state.cursor
  {
    var n := s.state.cursor;
    if n == 0 {
      assert s.requested + [] == s.requested;
    } else {
      var page := remote.catalog(n).value;
      var items := SyncItems(remote, page.docs, s.records);
      SyncItemsSucceeds(remote, page.docs, s.records);
      SyncItemsCompletes(remote, page.docs, s.records);
      var next := Absorb(s.(requested := s.requested + [n]), items).(state := s.state.(cursor := n - 1));
      assert Loop(remote, s) == Loop(remote, next);
      SteadySweep(remote, next);
      LoopGrows(remote, next);
      CountdownStep(s.requested, n);
      forall p, c | 1 <= p <= n && remote.catalog(p).Ok? && c in remote.catalog(p).value.docs
        ensures c.id in Loop(remote, s).records
      {
        if p == n { assert c.id in next.records; }
      }
    }
  }

  /** `run` keeps the cursor pair in range. A failed first request changes
      nothing but the request record; otherwise `run` ends with a cursor of
      at least 1 that it has written to the cursor file. */
  lemma RunInRange(remote: Remote, s: Sweep)
    requires remote.Wf() && InRange(s.state)
    ensures InRange(RunSpec(remote, s).state)
    ensures remote.catalog(1).Failed? ==> RunSpec(remote, s) == s.(requested := s.requested + [1])
    ensures remote.catalog(1).Ok? ==>
      && 1 <= RunSpec(remote, s).state.cursor
      && RunSpec(remote, s).persisted == Some(RunSpec(remote, s).state)
  {
    if remote.catalog(1).Ok? {
      var curr := remote.catalog(1).value.pages;
      ReconcileInRange(s.state, curr);
      var start := Reconcile(s.state, curr);
      var written := if ReconcileWrites(s.state, curr) then Some(start) else s.persisted;
      LoopInRange(remote, s.(requested := s.requested + [1], state := start, persisted := written));
      FinishInRange(Loop(remote, s.(requested := s.requested + [1], state := start, persisted := written)).state);
    }
  }

  /** Whatever pair `run` starts from: a failed first request changes
      nothing but the request record; otherwise the `finally` leaves a
      cursor of at least 1, written to the cursor file. */
  lemma RunEnds(remote: Remote, s: Sweep)
    requires remote.Wf()
    ensures remote.catalog(1).Failed? ==> RunSpec(remote, s) == s.(requested := s.requested + [1])
    ensures remote.catalog(1).Ok? ==>
      && 1 <= RunSpec(remote, s).state.cursor
      && RunSpec(remote, s).persisted == Some(RunSpec(remote, s).state)
  {
    if remote.catalog(1).Ok? {
      var curr := remote.catalog(1).value.pages;
      var start := Reconcile(s.state, curr);
      var written := if ReconcileWrites(s.state, curr) then Some(start) else s.persisted;
      var swept := Loop(remote, s.(requested := s.requested + [1], state := start, persisted := written));
      assert RunSpec(remote, s) == swept.(state := Finish(swept.state), persisted := Some(Finish(swept.state)));
    }
  }

  /** `run` grows the store as `Grows` allows, so a store with at most one
      write per identity keeps that property. */
  lemma RunGrows(remote: Remote, s: Sweep)
    requires remote.Wf()
    ensures Grows(s, RunSpec(remote, s))
    ensures OnceEach(s) ==> OnceEach(RunSpec(remote, s))
  {
    if remote.catalog(1).Ok? {
      var curr := remote.catalog(1).value.pages;
      var start := Reconcile(s.state, curr);
      var written := if ReconcileWrites(s.state, curr) then Some(start) else s.persisted;
      var asked := s.(requested := s.requested + [1], state := start, persisted := written);
      LoopGrows(remote, asked);
      assert Grows(s, asked) by { GrowsRefl(s); }
      GrowsTrans(s, asked, Loop(remote, asked));
    } else {
      GrowsRefl(s);
    }
    if OnceEach(s) {
      GrowsKeepsOnceEach(s, RunSpec(remote, s));
    }
  }

  /** The next `run` resumes where this one left off: when the total it
      first sees is the one this run ended with, it starts its sweep from
      this run's final cursor pair without writing the cursor file. */
  lemma RunResumes(remote: Remote, s: Sweep, curr: int)
    requires remote.Wf() && remote.catalog(1).Ok?
    requires curr == RunSpec(remote, s).state.lastTotalPages
    ensures Reconcile(RunSpec(remote, s).state, curr) == RunSpec(remote, s).state
    ensures !ReconcileWrites(RunSpec(remote, s).state, curr)
  {
  }
}
