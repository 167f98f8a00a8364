/** The persisted shape of a comic (the `ovo_picacomics` collection) and the
    mapping `saveComic` applies to an assembled comic before writing it. */
module Records {
  import opened Remote
  import opened Assembler

  /** The catalog-wide tag every harvested comic carries; it is not stored. */
  const TagCosplay: string := "COSPLAY"

  /** Stands in for a missing author or description. */
  const Placeholder: string := "NULL"

  datatype EpisodeRecord = EpisodeRecord(
    identify: Id,
    title: string,
    order: int,
    updatedAt: string,
    pages: seq<string>)

  /** The stored record. The schema's `type` field is never set by the
      crawler and is not part of this model. */
  datatype CosplayRecord = CosplayRecord(
    identify: Id,
    author: string,
    title: string,
    description: string,
    thumb: string,
    tags: seq<string>,
    totalPages: int,
    totalEpisodes: int,
    episodes: seq<EpisodeRecord>)

  /** `tags.filter((tag) => tag !== TAG_COSPLAY)` */
  function WithoutCosplay(tags: seq<string>): seq<string>
  {
    if tags == [] then []
    else (if tags[0] == TagCosplay then [] else [tags[0]]) + WithoutCosplay(tags[1..])
  }

  /** The filtered tags are exactly the input tags other than the
      catalog-wide one. */
  lemma {:induction false} WithoutCosplayMembers(tags: seq<string>)
    ensures forall t :: t in WithoutCosplay(tags) <==> t in tags && t != TagCosplay
  {
    if tags != [] {
      WithoutCosplayMembers(tags[1..]);
      assert tags == [tags[0]] + tags[1..];
    }
  }

  /** Filtering distributes over concatenation: the kept tags keep their
      relative order. */
  lemma {:induction false} WithoutCosplayAppend(a: seq<string>, b: seq<string>)
    ensures WithoutCosplay(a + b) == WithoutCosplay(a) + WithoutCosplay(b)
  {
    if a == [] {
      assert a + b == b;
    } else {
      var head := if a[0] == TagCosplay then [] else [a[0]];
      assert (a + b)[0] == a[0] && (a + b)[1..] == a[1..] + b;
      assert WithoutCosplay(a + b) == head + WithoutCosplay(a[1..] + b);
      WithoutCosplayAppend(a[1..], b);
      assert head + (WithoutCosplay(a[1..]) + WithoutCosplay(b)) == (head + WithoutCosplay(a[1..])) + WithoutCosplay(b);
    }
  }

  /** Tags without the catalog-wide one pass through unchanged. */
  lemma {:induction false} WithoutCosplayKeeps(tags: seq<string>)
    requires TagCosplay !in tags
    ensures WithoutCosplay(tags) == tags
  {
    if tags != [] {
      WithoutCosplayKeeps(tags[1..]);
      assert tags == [tags[0]] + tags[1..];
    }
  }

  /** `value || 'NULL'`: an empty value becomes the placeholder, a non-empty
      one is kept, so the result is never empty. */
  function OrPlaceholder(value: string): (r: string)
    ensures r != ""
    ensures value == "" ==> r == Placeholder
    ensures value != "" ==> r == value
  {
    if value == "" then Placeholder else value
  }

  /** `episode.pages.map((page) => page.media.path)` */
  function MediaPaths(pages: seq<EpisodePage>): seq<string>
  {
    seq(|pages|, i requires 0 <= i < |pages| => pages[i].media.path)
  }

  function ToEpisodeRecord(e: Episode): EpisodeRecord
  {
    EpisodeRecord(e.doc.id, e.doc.title, e.doc.order, e.doc.updatedAt, MediaPaths(e.pages))
  }

  /** The record `saveComic` builds for a comic not yet stored. */
  function ToRecord(data: ComicData): CosplayRecord
  {
    CosplayRecord(
      data.id,
      OrPlaceholder(data.info.author),
      data.info.title,
      OrPlaceholder(data.info.description),
      data.info.thumb.path,
      WithoutCosplay(data.info.tags),
      data.info.pagesCount,
      data.info.epsCount,
      seq(|data.episodes|, i requires 0 <= i < |data.episodes| => ToEpisodeRecord(data.episodes[i])))
  }

  ghost predicate EpisodesInOrder(episodes: seq<EpisodeRecord>) {
    forall i, j :: 0 <= i < j < |episodes| ==> episodes[i].order <= episodes[j].order
  }

  /** What every record the crawler writes satisfies: the required text
      fields it defaults are filled, the catalog-wide tag is absent, and the
      episodes are in ascending `order`. */
  ghost predicate Conforms(r: CosplayRecord) {
    && r.author != ""
    && r.description != ""
    && TagCosplay !in r.tags
    && EpisodesInOrder(r.episodes)
  }

  /** The mapping keeps identity, counts and episodes one for one (each
      episode's pages become their media paths, same length and order), and
      a comic whose episodes are in order maps to a conforming record. */
  lemma ToRecordFaithful(data: ComicData)
    ensures var r := ToRecord(data);
      && r.identify == data.id
      && r.totalPages == data.info.pagesCount
      && r.totalEpisodes == data.info.epsCount
      && |r.episodes| == |data.episodes|
      && (forall i :: 0 <= i < |r.episodes| ==>
            && r.episodes[i].identify == data.episodes[i].doc.id
            && r.episodes[i].order == data.episodes[i].doc.order
            && |r.episodes[i].pages| == |data.episodes[i].pages|
            && forall k :: 0 <= k < |r.episodes[i].pages| ==>
                 r.episodes[i].pages[k] == data.episodes[i].pages[k].media.path)
      && (SortedByOrder(data.episodes) ==> Conforms(r))
  {
    WithoutCosplayMembers(data.info.tags);
  }
}
