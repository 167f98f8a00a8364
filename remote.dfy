/** The remote comic catalog as the scan engine sees it: the shapes of its
    responses and the oracle that answers each paginated request.  Every
    request may fail (a transport or remote error); a successful paginated
    answer carries its documents and the total number of pages the remote
    reports at that moment. */
module Remote {

  type Id = string

  /** Any request to the remote either answers or throws. */
  datatype Fetch<T> = Ok(value: T) | Failed

  /** One page of a paginated listing: its documents and the reported total. */
  datatype Paged<T> = Paged(docs: seq<T>, pages: int)

  /** A media reference; only its storage path is kept. */
  datatype Media = Media(path: string)

  /** The detail attributes of a comic (the item-detail endpoint). An empty
      author or description stands for a missing one. */
  datatype ComicInfo = ComicInfo(
    title: string,
    author: string,
    description: string,
    thumb: Media,
    tags: seq<string>,
    pagesCount: int,
    epsCount: int)

  /** An entry of the catalog listing: its external identity and the
      attributes the listing itself reports. */
  datatype Comic = Comic(id: Id, summary: ComicInfo)

  /** An entry of a comic's episode listing. `updatedAt` is kept as the
      remote's own timestamp text. */
  datatype EpisodeDoc = EpisodeDoc(id: Id, title: string, order: int, updatedAt: string)

  /** An entry of an episode's content-page listing. */
  datatype EpisodePage = EpisodePage(media: Media)

  /** The four endpoints the core consumes, curried so that a listing for one
      comic (or one episode) is itself a function from page number to answer.
      `maxPages` bounds every page total the remote reports. */
  datatype Remote = Remote(
    catalog: int -> Fetch<Paged<Comic>>,
    info: Id -> Fetch<ComicInfo>,
    episodes: Id -> int -> Fetch<Paged<EpisodeDoc>>,
    pages: Id -> int -> int -> Fetch<Paged<EpisodePage>>,
    maxPages: nat)
  {
    /** Every page total the remote reports lies in [0, maxPages]. */
    ghost predicate Wf() {
      && Bounded(catalog, maxPages)
      && (forall id :: Bounded(episodes(id), maxPages))
      && (forall id, order :: Bounded(pages(id)(order), maxPages))
    }
  }

  /** A paginated listing whose reported totals never exceed `bound`. */
  ghost predicate Bounded<T>(listing: int -> Fetch<Paged<T>>, bound: nat) {
    forall page :: listing(page).Ok? ==> 0 <= listing(page).value.pages <= bound
  }
}
