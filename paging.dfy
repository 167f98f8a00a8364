/** The do-while page walk that the assembler runs twice: request page 1,
    then 2, 3, ... for as long as the page number just incremented does not
    exceed the total reported by the latest answer, accumulating every
    answer's documents in fetch order. Any failed request fails the walk. */
module Paging {
  import opened Remote

  /** Prepends already-gathered documents to the outcome of the rest of a walk. */
  function Prefix<T>(acc: seq<T>, rest: Fetch<seq<T>>): (r: Fetch<seq<T>>)
    ensures r.Ok? <==> rest.Ok?
    ensures r.Ok? ==> r.value == acc + rest.value
  {
    match rest
    case Failed => Failed
    case Ok(docs) => Ok(acc + docs)
  }

  lemma PrefixEmpty<T>(rest: Fetch<seq<T>>)
    ensures Prefix([], rest) == rest
  {
    match rest
    case Failed =>
    case Ok(docs) => assert [] + docs == docs;
  }

  lemma PrefixTwice<T>(acc: seq<T>, docs: seq<T>, rest: Fetch<seq<T>>)
    ensures Prefix(acc, Prefix(docs, rest)) == Prefix(acc + docs, rest)
  {
    match rest
    case Failed =>
    case Ok(more) => assert acc + (docs + more) == (acc + docs) + more;
  }

  /** The documents a walk starting at `page` gathers. */
  function Collect<T>(listing: int -> Fetch<Paged<T>>, bound: nat, page: int): Fetch<seq<T>>
    requires Bounded(listing, bound)
    decreases bound - page
  {
    match listing(page)
    case Failed => Failed
    case Ok(answer) =>
      if page + 1 <= answer.pages then Prefix(answer.docs, Collect(listing, bound, page + 1))
      else Ok(answer.docs)
  }

  /** The page numbers a walk starting at `page` requests, in order. */
  function Requests<T>(listing: int -> Fetch<Paged<T>>, bound: nat, page: int): seq<int>
    requires Bounded(listing, bound)
    decreases bound - page
  {
    match listing(page)
    case Failed => [page]
    case Ok(answer) =>
      if page + 1 <= answer.pages then [page] + Requests(listing, bound, page + 1)
      else [page]
  }

  /** Every requested page was answered. */
  ghost predicate AllAnswered<T>(listing: int -> Fetch<Paged<T>>, q: seq<int>) {
    forall i :: 0 <= i < |q| ==> listing(q[i]).Ok?
  }

  /** The documents of the answers to `q`, concatenated in request order. */
  function Gathered<T>(listing: int -> Fetch<Paged<T>>, q: seq<int>): seq<T>
    requires AllAnswered(listing, q)
  {
    if q == [] then [] else listing(q[0]).value.docs + Gathered(listing, q[1..])
  }

  /** The walk requests at least one page, and the pages it requests are
      consecutive from its first page. */
  lemma {:induction false} RequestsConsecutive<T>(listing: int -> Fetch<Paged<T>>, bound: nat, page: int)
    requires Bounded(listing, bound)
    ensures var q := Requests(listing, bound, page);
      |q| >= 1 && forall i :: 0 <= i < |q| ==> q[i] == page + i
    decreases bound - page
  {
    match listing(page)
    case Failed =>
    case Ok(answer) =>
      if page + 1 <= answer.pages {
        RequestsConsecutive(listing, bound, page + 1);
      }
  }

  /** The walk goes on past a page exactly when that page was answered with a
      total at least one more than the page number: every page but the last
      was so answered, and the last one failed or reported a smaller total. */
  lemma {:induction false} RequestsStopRule<T>(listing: int -> Fetch<Paged<T>>, bound: nat, page: int)
    requires Bounded(listing, bound)
    ensures var q := Requests(listing, bound, page);
      && (forall i :: 0 <= i < |q| - 1 ==>
            listing(q[i]).Ok? && q[i] + 1 <= listing(q[i]).value.pages)
      && (listing(q[|q| - 1]).Failed? || listing(q[|q| - 1]).value.pages < q[|q| - 1] + 1)
    decreases bound - page
  {
    match listing(page)
    case Failed =>
    case Ok(answer) =>
      if page + 1 <= answer.pages {
        RequestsStopRule(listing, bound, page + 1);
      }
  }

  /** The walk succeeds exactly when every request it makes is answered, and
      then it yields the answers' documents in fetch order. */
  lemma {:induction false} CollectGathers<T>(listing: int -> Fetch<Paged<T>>, bound: nat, page: int)
    requires Bounded(listing, bound)
    ensures var q := Requests(listing, bound, page);
      && (Collect(listing, bound, page).Ok? <==> AllAnswered(listing, q))
      && (Collect(listing, bound, page).Ok? ==> Collect(listing, bound, page).value == Gathered(listing, q))
    decreases bound - page
  {
    var q := Requests(listing, bound, page);
    match listing(page)
    case Failed =>
      assert !AllAnswered(listing, q) by { assert listing(q[0]).Failed?; }
    case Ok(answer) =>
      if page + 1 <= answer.pages {
        CollectGathers(listing, bound, page + 1);
        var rest := Requests(listing, bound, page + 1);
        assert q == [page] + rest;
        assert q[1..] == rest;
        assert AllAnswered(listing, q) <==> AllAnswered(listing, rest) by {
          if AllAnswered(listing, rest) {
            forall i | 0 <= i < |q| ensures listing(q[i]).Ok? {
              if i > 0 { assert q[i] == rest[i - 1]; }
            }
          }
          if AllAnswered(listing, q) {
            forall i | 0 <= i < |rest| ensures listing(rest[i]).Ok? {
              assert rest[i] == q[i + 1];
            }
          }
        }
      } else {
        assert q == [page];
        assert q[1..] == [];
      }
  }

  /** The walk itself: a do-while loop over page numbers from 1, as the
      source writes it. `requested` records the pages asked for. */
  method Paginate<T>(listing: int -> Fetch<Paged<T>>, bound: nat) returns (r: Fetch<seq<T>>, ghost requested: seq<int>)
    requires Bounded(listing, bound)
    ensures r == Collect(listing, bound, 1)
    ensures requested == Requests(listing, bound, 1)
  {
    var acc: seq<T> := [];
    var page := 1;
    var pages := 0;
    requested := [];
    PrefixEmpty(Collect(listing, bound, 1));
    while true
      invariant 1 <= page <= bound + 1
      invariant Collect(listing, bound, 1) == Prefix(acc, Collect(listing, bound, page))
      invariant Requests(listing, bound, 1) == requested + Requests(listing, bound, page)
      decreases bound + 1 - page
    {
      var answer := listing(page);
      requested := requested + [page];
      page := page + 1;
      if answer.Failed? {
        return Failed, requested;
      }
      PrefixTwice(acc, answer.value.docs, Collect(listing, bound, page));
      acc := acc + answer.value.docs;
      pages := answer.value.pages;
      if !(page <= pages) {
        break;
      }
    }
    r := Ok(acc);
  }
}
