/** The module-level state of the crawler and the operations that update it
    in place: the cursor pair and the `looping` flag, the cursor file, and
    the document store, with `existsComic`, `saveComic`, `loop` and `run`. */
module Runtime {
  import opened Remote
  import opened Assembler
  import opened Records
  import opened Cursor
  import opened Scan

  class Crawler {
    var cursor: int
    var lastTotalPages: int
    var looping: bool
    /** The content of the cursor file; None while it does not exist. */
    var cursorFile: Option<CursorState>
    /** The `ovo_picacomics` collection, keyed by `identify`. */
    var store: map<Id, CosplayRecord>
    /** The catalog pages requested, in order. */
    ghost var requested: seq<int>
    /** The identities written to the store, in order. */
    ghost var inserted: seq<Id>

    ghost function Snapshot(): Sweep
      reads this
    {
      Sweep(CursorState(cursor, lastTotalPages), cursorFile, store, requested, inserted)
    }

    /** The store is written at most once per identity. */
    ghost predicate Valid()
      reads this
    {
      OnceEach(Snapshot())
    }

    /** Module start: `readCursorData` takes the cursor file, or (0, 0)
        when there is none; no sweep is active. */
    constructor(file: Option<CursorState>, records: map<Id, CosplayRecord>)
      ensures file.Some? ==> cursor == file.value.cursor && lastTotalPages == file.value.lastTotalPages
      ensures file.None? ==> cursor == 0 && lastTotalPages == 0
      ensures !looping && cursorFile == file && store == records
      ensures requested == [] && inserted == []
      ensures Valid()
    {
      var start := if file.Some? then file.value else CursorState(0, 0);
      cursor := start.cursor;
      lastTotalPages := start.lastTotalPages;
      looping := false;
      cursorFile := file;
      store := records;
      requested := [];
      inserted := [];
    }

    /** `writeCursorData(cursor, lastTotalPages)` */
    method WriteCursorData()
      modifies this`cursorFile
      ensures cursorFile == Some(CursorState(cursor, lastTotalPages))
    {
      cursorFile := Some(CursorState(cursor, lastTotalPages));
    }

    /** `existsComic`: the stored record with this identity, if any. */
    method ExistsComic(id: Id) returns (found: Option<CosplayRecord>)
      ensures found.Some? <==> id in store
      ensures found.Some? ==> found.value == store[id]
    {
      if id in store {
        found := Some(store[id]);
      } else {
        found := None;
      }
    }

    /** `saveComic`: a comic already stored is returned as stored and
        nothing is written; otherwise its mapped record is written. */
    method SaveComic(data: ComicData) returns (saved: CosplayRecord)
      modifies this`store, this`inserted
      ensures data.id in old(store) ==> saved == old(store)[data.id] && store == old(store) && inserted == old(inserted)
      ensures data.id !in old(store) ==>
        && saved == ToRecord(data)
        && store == old(store)[data.id := saved]
        && inserted == old(inserted) + [data.id]
    {
      var existing := ExistsComic(data.id);
      if existing.Some? {
        return existing.value;
      }
      saved := ToRecord(data);
      store := store[data.id := saved];
      inserted := inserted + [data.id];
    }

    /** The `for` loop of `loop` over one catalog page: each comic not yet
        stored is assembled and saved; the first failed assembly ends the
        page with `ok` false. */
    method SyncPage(remote: Remote, docs: seq<Comic>) returns (ok: bool)
      requires remote.Wf()
      modifies this`store, this`inserted
      ensures ok == SyncItems(remote, docs, old(store)).ok
      ensures store == SyncItems(remote, docs, old(store)).records
      ensures inserted == old(inserted) + SyncItems(remote, docs, old(store)).inserted
    {
      ghost var written: seq<Id> := [];
      var k := 0;
      while k < |docs|
        invariant 0 <= k <= |docs|
        invariant inserted == old(inserted) + written
        invariant SyncItems(remote, docs, old(store)) == Resume(written, SyncItems(remote, docs[k..], store))
      {
        SyncStep(remote, docs, k, old(store), written, store);
        ghost var absent := docs[k].id !in store;
        var handled := SyncComic(remote, docs[k]);
        if !handled {
          return false;
        }
        if absent {
          written := written + [docs[k].id];
        }
        k := k + 1;
      }
      assert docs[k..] == [];
      ok := true;
    }

    /** The body of that loop for one comic (lines `existsComic`,
        `fetchComicDataAndUnion`, `saveComic`): a stored comic is skipped;
        otherwise it is assembled and its record written, and a failed
        assembly makes `handled` false with nothing written. */
    method SyncComic(remote: Remote, comic: Comic) returns (handled: bool)
      requires remote.Wf()
      modifies this`store, this`inserted
      ensures comic.id in old(store) ==> handled && store == old(store) && inserted == old(inserted)
      ensures comic.id !in old(store) ==> handled == Assemble(remote, comic).Ok?
      ensures comic.id !in old(store) && !handled ==> store == old(store) && inserted == old(inserted)
      ensures comic.id !in old(store) && handled ==>
        && store == old(store)[comic.id := ToRecord(Assemble(remote, comic).value)]
        && inserted == old(inserted) + [comic.id]
    {
      var existed := ExistsComic(comic.id);
      if existed.Some? {
        return true;
      }
      var data := FetchComicDataAndUnion(remote, comic);
      if data.Failed? {
        return false;
      }
      AssembleKeepsId(remote, comic);
      var _ := SaveComic(data.value);
      handled := true;
    }

    /** The growth branch of `loop`: a page reporting a larger total moves
        the cursor back by the growth, clamped to the new total, and one
        page further back. */
    method RegrowCursor(pages: int)
      modifies this`cursor, this`lastTotalPages
      ensures CursorState(cursor, lastTotalPages) == Regrow(old(CursorState(cursor, lastTotalPages)), pages)
    {
      if lastTotalPages < pages {
        cursor := cursor + (pages - lastTotalPages);
        if cursor > pages {
          cursor := pages;
        }
        lastTotalPages := pages;
        cursor := cursor + 1;
      }
    }

    /** `loop`: walks catalog pages from the cursor toward page 1, calling
        itself after each page walked to its end. */
    method LoopPages(remote: Remote)
      requires remote.Wf()
      modifies this`cursor, this`lastTotalPages, this`cursorFile, this`store, this`requested, this`inserted
      ensures Snapshot() == Loop(remote, old(Snapshot()))
      decreases Headroom(lastTotalPages, remote.maxPages), cursor
    {
      var dirtPage := cursor;
      if dirtPage < 1 {
        return;
      }
      requested := requested + [dirtPage];
      var comics := remote.catalog(dirtPage);
      if comics.Failed? {
        WriteCursorData();
        return;
      }
      RegrowCursor(comics.value.pages);
      var ok := SyncPage(remote, comics.value.docs);
      if !ok {
        WriteCursorData();
        return;
      }
      cursor := cursor - 1;
      LoopPages(remote);
    }

    /** The start of `run`: a zero cursor takes the current total for both
        fields, and growth of the total moves the cursor back; each of the
        two writes the cursor file. */
    method ReconcileCursor(currTotalPages: int)
      modifies this`cursor, this`lastTotalPages, this`cursorFile
      ensures CursorState(cursor, lastTotalPages) == Reconcile(old(CursorState(cursor, lastTotalPages)), currTotalPages)
      ensures cursorFile == if ReconcileWrites(old(CursorState(cursor, lastTotalPages)), currTotalPages)
        then Some(CursorState(cursor, lastTotalPages)) else old(cursorFile)
    {
      if cursor == 0 {
        cursor := currTotalPages;
        lastTotalPages := currTotalPages;
        WriteCursorData();
      }
      if lastTotalPages < currTotalPages {
        cursor := cursor + (currTotalPages - lastTotalPages);
        if cursor > currTotalPages {
          cursor := currTotalPages;
        }
        lastTotalPages := currTotalPages;
        WriteCursorData();
      }
    }

    /** `run`: skipped while a sweep is active; otherwise it runs
        `RunOnce`. The store stays written at most once per identity, and a
        cursor pair in range stays in range. */
    method Run(remote: Remote)
      requires remote.Wf() && Valid()
      modifies this
      ensures old(looping) ==> looping && Snapshot() == old(Snapshot())
      ensures !old(looping) ==> !looping && Snapshot() == RunSpec(remote, old(Snapshot()))
      ensures Valid()
      ensures InRange(old(Snapshot()).state) ==> InRange(Snapshot().state)
    {
      if looping {
        return;
      }
      ghost var before := Snapshot();
      RunGrows(remote, before);
      if InRange(before.state) {
        RunInRange(remote, before);
      }
      RunOnce(remote);
    }

    /** The body of `run` past its guard: reconcile the cursor with the
        total the first catalog page reports, sweep with `looping` set, and
        finally reset a cursor at or below zero to 1, write the cursor file
        and clear `looping`. A failed first request ends it before any of
        this. */
    method RunOnce(remote: Remote)
      requires remote.Wf() && !looping
      modifies this
      ensures !looping && Snapshot() == RunSpec(remote, old(Snapshot()))
    {
      requested := requested + [1];
      var probe := remote.catalog(1);
      if probe.Failed? {
        return;
      }
      ReconcileCursor(probe.value.pages);
      looping := true;
      LoopPages(remote);
      if cursor <= 0 {
        cursor := 1;
      }
      WriteCursorData();
      looping := false;
    }
  }

  /** The outcome of a page whose first writes are already done. */
  function Resume(written: seq<Id>, rest: PageSync): PageSync {
    rest.(inserted := written + rest.inserted)
  }

  lemma ResumeShift(written: seq<Id>, id: Id, rest: PageSync)
    ensures Resume(written, rest.(inserted := [id] + rest.inserted)) == Resume(written + [id], rest)
  {
    assert written + ([id] + rest.inserted) == (written + [id]) + rest.inserted;
  }

  /** One comic of the page loop, as `SyncItems` sees it: a stored comic is
      passed over, a failed assembly ends the page with what was written so
      far, and an assembled one is written and the walk goes on. */
  lemma SyncStep(remote: Remote, docs: seq<Comic>, k: nat, before: map<Id, CosplayRecord>,
                 written: seq<Id>, store: map<Id, CosplayRecord>)
    requires remote.Wf() && k < |docs|
    requires SyncItems(remote, docs, before) == Resume(written, SyncItems(remote, docs[k..], store))
    ensures docs[k].id in store ==>
      SyncItems(remote, docs, before) == Resume(written, SyncItems(remote, docs[k + 1..], store))
    ensures docs[k].id !in store && Assemble(remote, docs[k]).Failed? ==>
      SyncItems(remote, docs, before) == PageSync(false, store, written)
    ensures docs[k].id !in store && Assemble(remote, docs[k]).Ok? ==>
      SyncItems(remote, docs, before) ==
        Resume(written + [docs[k].id], SyncItems(remote, docs[k + 1..], store[docs[k].id := ToRecord(Assemble(remote, docs[k]).value)]))
  {
    assert docs[k..][0] == docs[k] && docs[k..][1..] == docs[k + 1..];
    if docs[k].id !in store {
      if Assemble(remote, docs[k]).Failed? {
        assert written + [] == written;
      } else {
        AssembleKeepsId(remote, docs[k]);
        var data := Assemble(remote, docs[k]).value;
        ResumeShift(written, data.id, SyncItems(remote, docs[k + 1..], store[data.id := ToRecord(data)]));
      }
    }
  }
}
