/** The nested record assembler (`fetchComicDataAndUnion`): for one catalog
    entry it fetches the detail attributes, walks the episode listing,
    sorts the episodes by their `order` in place, and then walks each
    episode's content-page listing, keyed by that episode's `order`. */
module Assembler {
  import opened Remote
  import opened Paging

  /** An episode as held in memory: its listing entry and its content pages,
      filled in after sorting. */
  datatype Episode = Episode(doc: EpisodeDoc, pages: seq<EpisodePage>)

  /** The in-memory union of a catalog entry, its detail attributes and its
      episodes. The detail answer overrides the listing's attributes. */
  datatype ComicData = ComicData(id: Id, info: ComicInfo, episodes: seq<Episode>)

  // ---------------------------------------------------------------------
  // Ordering episodes by `order`

  ghost predicate SortedByOrder(s: seq<Episode>) {
    forall i, j :: 0 <= i < j < |s| ==> s[i].doc.order <= s[j].doc.order
  }

  /** Places `x` after every element of `sorted` whose order is not larger,
      scanning from the right, as an insertion sort step does. */
  function Insert(sorted: seq<Episode>, x: Episode): seq<Episode>
  {
    if sorted == [] || sorted[|sorted| - 1].doc.order <= x.doc.order then sorted + [x]
    else Insert(sorted[..|sorted| - 1], x) + [sorted[|sorted| - 1]]
  }

  /** The stable sort of episodes by ascending `order`. */
  function SortByOrder(s: seq<Episode>): seq<Episode>
  {
    if s == [] then [] else Insert(SortByOrder(s[..|s| - 1]), s[|s| - 1])
  }

  lemma {:induction false} InsertPermutes(sorted: seq<Episode>, x: Episode)
    ensures multiset(Insert(sorted, x)) == multiset(sorted) + multiset{x}
  {
    if sorted == [] || sorted[|sorted| - 1].doc.order <= x.doc.order {
    } else {
      var init, last := sorted[..|sorted| - 1], sorted[|sorted| - 1];
      InsertPermutes(init, x);
      assert sorted == init + [last];
    }
  }

  lemma {:induction false} InsertSorted(sorted: seq<Episode>, x: Episode)
    requires SortedByOrder(sorted)
    ensures SortedByOrder(Insert(sorted, x))
  {
    if sorted == [] || sorted[|sorted| - 1].doc.order <= x.doc.order {
    } else {
      var init, last := sorted[..|sorted| - 1], sorted[|sorted| - 1];
      InsertSorted(init, x);
      InsertPermutes(init, x);
      var front := Insert(init, x);
      forall i | 0 <= i < |front| ensures front[i].doc.order <= last.doc.order {
        assert front[i] in multiset(init) + multiset{x};
        if front[i] in multiset(init) {
          var k :| 0 <= k < |init| && init[k] == front[i];
        }
      }
    }
  }

  /** The episodes come out sorted by ascending `order`. */
  lemma {:induction false} SortSorted(s: seq<Episode>)
    ensures SortedByOrder(SortByOrder(s))
  {
    if s != [] {
      SortSorted(s[..|s| - 1]);
      InsertSorted(SortByOrder(s[..|s| - 1]), s[|s| - 1]);
    }
  }

  /** The episodes come out as a permutation of the episodes that went in. */
  lemma {:induction false} SortPermutes(s: seq<Episode>)
    ensures multiset(SortByOrder(s)) == multiset(s)
  {
    if s != [] {
      SortPermutes(s[..|s| - 1]);
      InsertPermutes(SortByOrder(s[..|s| - 1]), s[|s| - 1]);
      assert s == s[..|s| - 1] + [s[|s| - 1]];
    }
  }

  /** Episodes already in order are left exactly as they are. */
  lemma {:induction false} SortKeepsSorted(s: seq<Episode>)
    requires SortedByOrder(s)
    ensures SortByOrder(s) == s
  {
    if s != [] {
      var init, last := s[..|s| - 1], s[|s| - 1];
      forall i, j | 0 <= i < j < |init| ensures init[i].doc.order <= init[j].doc.order {
        assert init[i] == s[i] && init[j] == s[j];
      }
      SortKeepsSorted(init);
      if init != [] {
        assert init[|init| - 1] == s[|s| - 2];
      }
      assert Insert(init, last) == init + [last];
      assert s == init + [last];
    }
  }

  /** Where `x` lands: after the longest prefix whose last element is not
      larger than it, given that everything after that prefix is larger. */
  lemma {:induction false} InsertLands(sorted: seq<Episode>, j: nat, x: Episode)
    requires j <= |sorted| && (j == 0 || sorted[j - 1].doc.order <= x.doc.order)
    requires forall k :: j <= k < |sorted| ==> sorted[k].doc.order > x.doc.order
    ensures Insert(sorted, x) == sorted[..j] + [x] + sorted[j..]
    decreases |sorted|
  {
    if j < |sorted| {
      var init, last := sorted[..|sorted| - 1], sorted[|sorted| - 1];
      InsertLands(init, j, x);
      assert init[..j] == sorted[..j];
      assert init[j..] + [last] == sorted[j..];
    }
  }

  /** An array prefix laid out as `sorted` with `x` placed at `j`. */
  lemma LaidOut(cur: seq<Episode>, sorted: seq<Episode>, j: nat, x: Episode)
    requires j <= |sorted| < |cur|
    requires forall k :: 0 <= k < j ==> cur[k] == sorted[k]
    requires cur[j] == x
    requires forall k :: j <= k < |sorted| ==> cur[k + 1] == sorted[k]
    ensures cur[..|sorted| + 1] == sorted[..j] + [x] + sorted[j..]
  {
    var placed := sorted[..j] + [x] + sorted[j..];
    forall k | 0 <= k <= |sorted| ensures cur[k] == placed[k] {
      if k > j { assert cur[(k - 1) + 1] == sorted[k - 1]; }
    }
  }

  /** The inner loop of an insertion-sort step: shifts the larger elements
      of the sorted prefix `a[..i]` one place right, returning the gap. */
  method MakeRoom(a: array<Episode>, i: nat, x: Episode) returns (j: nat)
    requires i < a.Length
    modifies a
    ensures j <= i && (j == 0 || old(a[j - 1]).doc.order <= x.doc.order)
    ensures forall k :: 0 <= k < j ==> a[k] == old(a[k])
    ensures forall k :: j <= k < i ==> a[k + 1] == old(a[k]) && old(a[k]).doc.order > x.doc.order
    ensures forall k :: i < k < a.Length ==> a[k] == old(a[k])
  {
    j := i;
    while j > 0 && a[j - 1].doc.order > x.doc.order
      invariant 0 <= j <= i
      invariant forall k :: 0 <= k < j ==> a[k] == old(a[k])
      invariant forall k :: j <= k < i ==> a[k + 1] == old(a[k]) && old(a[k]).doc.order > x.doc.order
      invariant forall k :: i < k < a.Length ==> a[k] == old(a[k])
    {
      a[j] := a[j - 1];
      j := j - 1;
    }
  }

  /** One insertion-sort step: moves `a[i]` left past every larger element
      of the sorted prefix `a[..i]`. */
  method InsertAt(a: array<Episode>, i: nat)
    requires i < a.Length
    modifies a
    ensures a[..i + 1] == Insert(old(a[..i]), old(a[i]))
    ensures forall k :: i < k < a.Length ==> a[k] == old(a[k])
  {
    var x := a[i];
    ghost var sorted := a[..i];
    var j := MakeRoom(a, i, x);
    a[j] := x;
    InsertLands(sorted, j, x);
    LaidOut(a[..], sorted, j, x);
  }

  /** `episodes.sort((a, b) => a.order - b.order)`: an insertion sort on the
      array, stable like the runtime's sort. */
  method SortInPlace(a: array<Episode>)
    modifies a
    ensures a[..] == SortByOrder(old(a[..]))
  {
    ghost var input := a[..];
    var i := 0;
    while i < a.Length
      invariant 0 <= i <= a.Length
      invariant a[..i] == SortByOrder(input[..i])
      invariant forall k :: i <= k < a.Length ==> a[k] == input[k]
    {
      InsertAt(a, i);
      assert input[..i + 1][..i] == input[..i];
      i := i + 1;
    }
    assert input[..a.Length] == input;
  }

  // ---------------------------------------------------------------------
  // Assembly

  /** The episodes as first pushed: every listed entry with no pages yet. */
  function Fresh(docs: seq<EpisodeDoc>): seq<Episode>
  {
    seq(|docs|, i requires 0 <= i < |docs| => Episode(docs[i], []))
  }

  /** The episodes with their pages set aside. */
  function Blank(episodes: seq<Episode>): seq<Episode>
  {
    seq(|episodes|, i requires 0 <= i < |episodes| => episodes[i].(pages := []))
  }

  /** The content-page listing of episode `order` of comic `id`. */
  function PageListing(remote: Remote, id: Id, order: int): (listing: int -> Fetch<Paged<EpisodePage>>)
    requires remote.Wf()
    ensures Bounded(listing, remote.maxPages)
  {
    remote.pages(id)(order)
  }

  /** Walks each episode's content pages in turn, appending them to the
      episode; the first failed walk fails the whole. */
  function FillPages(remote: Remote, id: Id, episodes: seq<Episode>): Fetch<seq<Episode>>
    requires remote.Wf()
  {
    if episodes == [] then Ok([])
    else
      var e := episodes[0];
      match Collect(PageListing(remote, id, e.doc.order), remote.maxPages, 1)
      case Failed => Failed
      case Ok(pages) => Prefix([e.(pages := e.pages + pages)], FillPages(remote, id, episodes[1..]))
  }

  /** What assembling one catalog entry yields. */
  function Assemble(remote: Remote, comic: Comic): Fetch<ComicData>
    requires remote.Wf()
  {
    match remote.info(comic.id)
    case Failed => Failed
    case Ok(info) =>
      match Collect(remote.episodes(comic.id), remote.maxPages, 1)
      case Failed => Failed
      case Ok(docs) =>
        match FillPages(remote, comic.id, SortByOrder(Fresh(docs)))
        case Failed => Failed
        case Ok(episodes) => Ok(ComicData(comic.id, info, episodes))
  }

  /** Filling keeps every episode in place and appends to each exactly the
      pages of its own listing, requested by its `order`; it fails exactly
      when one of those listings fails. */
  lemma {:induction false} FillPagesSpec(remote: Remote, id: Id, episodes: seq<Episode>)
    requires remote.Wf()
    ensures FillPages(remote, id, episodes).Ok? <==>
      forall i :: 0 <= i < |episodes| ==> Collect(PageListing(remote, id, episodes[i].doc.order), remote.maxPages, 1).Ok?
    ensures FillPages(remote, id, episodes).Ok? ==>
      var r := FillPages(remote, id, episodes).value;
      && |r| == |episodes|
      && forall i :: 0 <= i < |r| ==>
           && r[i].doc == episodes[i].doc
           && r[i].pages == episodes[i].pages + Collect(PageListing(remote, id, episodes[i].doc.order), remote.maxPages, 1).value
  {
    if episodes != [] {
      var rest := episodes[1..];
      FillPagesSpec(remote, id, rest);
      assert forall i :: 0 < i < |episodes| ==> episodes[i] == rest[i - 1];
    }
  }

  /** A successful assembly carries the listing entry's identity and the
      detail attributes; its episodes, pages set aside, are the fetched
      episode entries sorted by ascending `order`: so they are in order, and
      they are a permutation of what the episode walk fetched. */
  lemma AssembleOrdersEpisodes(remote: Remote, comic: Comic)
    requires remote.Wf()
    requires Assemble(remote, comic).Ok?
    ensures var d := Assemble(remote, comic).value;
      && var docs := Collect(remote.episodes(comic.id), remote.maxPages, 1).value;
      && d.id == comic.id
      && d.info == remote.info(comic.id).value
      && Blank(d.episodes) == SortByOrder(Fresh(docs))
      && SortedByOrder(d.episodes)
      && multiset(Blank(d.episodes)) == multiset(Fresh(docs))
  {
    var docs := Collect(remote.episodes(comic.id), remote.maxPages, 1).value;
    var sorted := SortByOrder(Fresh(docs));
    var d := Assemble(remote, comic).value;
    FillPagesSpec(remote, comic.id, sorted);
    SortSorted(Fresh(docs));
    SortPermutes(Fresh(docs));
    SortKeepsFreshBlank(Fresh(docs));
    assert Blank(d.episodes) == sorted by {
      forall i | 0 <= i < |sorted| ensures Blank(d.episodes)[i] == sorted[i] {
        assert sorted[i] in multiset(Fresh(docs));
      }
    }
  }

  /** The two facts the store relies on: a successful assembly keeps the
      listing entry's identity and its episodes are in ascending order. */
  lemma AssembleKeepsId(remote: Remote, comic: Comic)
    requires remote.Wf()
    ensures Assemble(remote, comic).Ok? ==>
      Assemble(remote, comic).value.id == comic.id && SortedByOrder(Assemble(remote, comic).value.episodes)
  {
    if Assemble(remote, comic).Ok? {
      AssembleOrdersEpisodes(remote, comic);
    }
  }

  /** Every episode of a sorted fresh listing still has no pages. */
  lemma SortKeepsFreshBlank(pushed: seq<Episode>)
    requires forall i :: 0 <= i < |pushed| ==> pushed[i].pages == []
    ensures forall i :: 0 <= i < |SortByOrder(pushed)| ==> SortByOrder(pushed)[i].pages == []
  {
    SortPermutes(pushed);
    forall i | 0 <= i < |SortByOrder(pushed)| ensures SortByOrder(pushed)[i].pages == [] {
      assert SortByOrder(pushed)[i] in multiset(pushed);
    }
  }

  /** In a successful assembly, each episode's pages are the pages of the
      listing for that episode's `order`, concatenated in fetch order. */
  lemma AssembleFillsPages(remote: Remote, comic: Comic)
    requires remote.Wf()
    requires Assemble(remote, comic).Ok?
    ensures var d := Assemble(remote, comic).value;
      forall i :: 0 <= i < |d.episodes| ==>
        var walk := Collect(PageListing(remote, comic.id, d.episodes[i].doc.order), remote.maxPages, 1);
        walk.Ok? && d.episodes[i].pages == walk.value
  {
    var docs := Collect(remote.episodes(comic.id), remote.maxPages, 1).value;
    var sorted := SortByOrder(Fresh(docs));
    FillPagesSpec(remote, comic.id, sorted);
    SortPermutes(Fresh(docs));
    forall i | 0 <= i < |sorted| ensures sorted[i].pages == [] {
      assert sorted[i] in multiset(Fresh(docs));
    }
  }

  /** Assembly fails exactly when the detail request fails, the episode walk
      fails, or the page walk of some fetched episode fails. */
  lemma AssembleFailsWhen(remote: Remote, comic: Comic)
    requires remote.Wf()
    ensures Assemble(remote, comic).Failed? <==>
      || remote.info(comic.id).Failed?
      || Collect(remote.episodes(comic.id), remote.maxPages, 1).Failed?
      || exists doc :: doc in Collect(remote.episodes(comic.id), remote.maxPages, 1).value &&
           Collect(PageListing(remote, comic.id, doc.order), remote.maxPages, 1).Failed?
  {
    var walk := Collect(remote.episodes(comic.id), remote.maxPages, 1);
    if remote.info(comic.id).Ok? && walk.Ok? {
      var docs := walk.value;
      var sorted := SortByOrder(Fresh(docs));
      FillPagesSpec(remote, comic.id, sorted);
      SortPermutes(Fresh(docs));
      if FillPages(remote, comic.id, sorted).Failed? {
        FailedPageWalkListed(remote, comic.id, docs);
      } else {
        ListedPageWalksDone(remote, comic.id, docs);
      }
    }
  }

  /** A failed page walk of a sorted episode is the walk of a fetched one. */
  lemma FailedPageWalkListed(remote: Remote, id: Id, docs: seq<EpisodeDoc>)
    requires remote.Wf()
    requires multiset(SortByOrder(Fresh(docs))) == multiset(Fresh(docs))
    requires exists i ::
      && 0 <= i < |SortByOrder(Fresh(docs))|
      && Collect(PageListing(remote, id, SortByOrder(Fresh(docs))[i].doc.order), remote.maxPages, 1).Failed?
    ensures exists doc :: doc in docs && Collect(PageListing(remote, id, doc.order), remote.maxPages, 1).Failed?
  {
    var sorted := SortByOrder(Fresh(docs));
    var i :| 0 <= i < |sorted| && Collect(PageListing(remote, id, sorted[i].doc.order), remote.maxPages, 1).Failed?;
    assert sorted[i] in multiset(Fresh(docs));
    var k :| 0 <= k < |docs| && Fresh(docs)[k] == sorted[i];
    assert docs[k] in docs;
  }

  /** When every sorted episode's page walk succeeds, so does every fetched
      episode's. */
  lemma ListedPageWalksDone(remote: Remote, id: Id, docs: seq<EpisodeDoc>)
    requires remote.Wf()
    requires multiset(SortByOrder(Fresh(docs))) == multiset(Fresh(docs))
    requires forall i :: 0 <= i < |SortByOrder(Fresh(docs))| ==>
      Collect(PageListing(remote, id, SortByOrder(Fresh(docs))[i].doc.order), remote.maxPages, 1).Ok?
    ensures forall doc :: doc in docs ==> Collect(PageListing(remote, id, doc.order), remote.maxPages, 1).Ok?
  {
    var sorted := SortByOrder(Fresh(docs));
    forall doc | doc in docs ensures Collect(PageListing(remote, id, doc.order), remote.maxPages, 1).Ok? {
      var k :| 0 <= k < |docs| && docs[k] == doc;
      assert Fresh(docs)[k] in multiset(sorted);
      var i :| 0 <= i < |sorted| && sorted[i] == Fresh(docs)[k];
    }
  }

  /** The second loop of `fetchComicDataAndUnion`: for each episode of the
      array in turn, walks its content pages and pushes them onto it. */
  method FillEpisodePages(remote: Remote, id: Id, episodes: array<Episode>) returns (ok: bool)
    requires remote.Wf()
    modifies episodes
    ensures ok == FillPages(remote, id, old(episodes[..])).Ok?
    ensures ok ==> episodes[..] == FillPages(remote, id, old(episodes[..])).value
  {
    ghost var sorted := episodes[..];
    PrefixEmpty(FillPages(remote, id, sorted));
    var k := 0;
    while k < episodes.Length
      invariant 0 <= k <= episodes.Length == |sorted|
      invariant forall m :: k <= m < episodes.Length ==> episodes[m] == sorted[m]
      invariant FillPages(remote, id, sorted) == Prefix(episodes[..k], FillPages(remote, id, sorted[k..]))
    {
      var episode := episodes[k];
      var pages, _ := Paginate(PageListing(remote, id, episode.doc.order), remote.maxPages);
      if pages.Failed? {
        assert sorted[k..][0] == episode;
        return false;
      }
      ghost var before := episodes[..k];
      episodes[k] := episode.(pages := episode.pages + pages.value);
      assert sorted[k..][0] == episode && sorted[k..][1..] == sorted[k + 1..];
      PrefixTwice(before, [episodes[k]], FillPages(remote, id, sorted[k + 1..]));
      assert episodes[..k + 1] == before + [episodes[k]];
      k := k + 1;
    }
    assert sorted[k..] == [];
    assert episodes[..k] == episodes[..];
    ok := true;
  }

  /** `fetchComicDataAndUnion`: the detail request, the episode walk, the
      in-place sort, and one page walk per episode in sorted order. */
  method FetchComicDataAndUnion(remote: Remote, comic: Comic) returns (r: Fetch<ComicData>)
    requires remote.Wf()
    ensures r == Assemble(remote, comic)
  {
    var info := remote.info(comic.id);
    if info.Failed? {
      return Failed;
    }
    var listed, _ := Paginate(remote.episodes(comic.id), remote.maxPages);
    if listed.Failed? {
      return Failed;
    }
    var docs := listed.value;
    var episodes := new Episode[|docs|](i requires 0 <= i < |docs| => Episode(docs[i], []));
    assert episodes[..] == Fresh(docs);
    SortInPlace(episodes);
    var ok := FillEpisodePages(remote, comic.id, episodes);
    if !ok {
      return Failed;
    }
    r := Ok(ComicData(comic.id, info.value, episodes[..]));
  }
}
