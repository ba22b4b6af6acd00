/** The blog grid's paging arithmetic: `showPage` and `setupPagination`. */
module Pagination {

  const PostsPerPage: nat := 6

  /** `Array.prototype.slice(start, end)` for non-negative bounds: both are clamped to the length. */
  function Slice<T>(xs: seq<T>, start: nat, end: nat): (r: seq<T>)
    ensures |r| <= |xs| && |r| <= (if end < start then 0 else end - start)
    ensures forall i :: 0 <= i < |r| ==> start + i < |xs| && r[i] == xs[start + i]
    ensures start < end && start < |xs| ==> |r| > 0
    ensures |r| == if start < end && start < |xs| then (if end < |xs| then end else |xs|) - start else 0
  {
    var s := if start < |xs| then start else |xs|;
    var e := if end < s then s else if end < |xs| then end else |xs|;
    xs[s..e]
  }

  /** The posts `showPage(posts, page)` shows, for pages numbered from 1. */
  function PageItems<T>(xs: seq<T>, page: nat): (r: seq<T>)
    requires page >= 1
    ensures |r| <= PostsPerPage
    ensures forall i :: 0 <= i < |r| ==> (page - 1) * PostsPerPage + i < |xs| && r[i] == xs[(page - 1) * PostsPerPage + i]
  {
    var start := (page - 1) * PostsPerPage;
    Slice(xs, start, start + PostsPerPage)
  }

  /** `Math.ceil(n / postsPerPage)`. */
  function PageCount(n: nat): (c: nat)
    ensures (c - 1) * PostsPerPage < n <= c * PostsPerPage || (n == 0 && c == 0)
  {
    (n + PostsPerPage - 1) / PostsPerPage
  }

  /** The page links `setupPagination` creates: none for a single page. */
  function PageLinks(n: nat): (links: seq<nat>)
    ensures PageCount(n) <= 1 ==> links == []
    ensures PageCount(n) > 1 ==> |links| == PageCount(n) && forall i :: 0 <= i < |links| ==> links[i] == i + 1
  {
    if PageCount(n) <= 1 then [] else seq(PageCount(n), i => i + 1)
  }

  /** The pages 1..count, concatenated. */
  function Pages<T>(xs: seq<T>, count: nat): seq<T>
  {
    if count == 0 then [] else Pages(xs, count - 1) + PageItems(xs, count)
  }

  /** The first `count` pages are the first `count * 6` posts, in order. */
  lemma {:induction false} PagesPrefix<T>(xs: seq<T>, count: nat)
    ensures Pages(xs, count) == xs[..if count * PostsPerPage < |xs| then count * PostsPerPage else |xs|]
  {
    if count > 0 {
      PagesPrefix(xs, count - 1);
      var a := (count - 1) * PostsPerPage;
      var lo := if a < |xs| then a else |xs|;
      var hi := if count * PostsPerPage < |xs| then count * PostsPerPage else |xs|;
      assert PageItems(xs, count) == xs[lo..hi];
      assert xs[..lo] + xs[lo..hi] == xs[..hi];
    }
  }

  /** Paging neither drops nor repeats a post: all pages together are the whole list. */
  lemma PagesCoverAll<T>(xs: seq<T>)
    ensures Pages(xs, PageCount(|xs|)) == xs
  {
    PagesPrefix(xs, PageCount(|xs|));
  }

  /** Every page that has a link shows at least one post; later pages show none. */
  lemma PageNonEmpty<T>(xs: seq<T>, page: nat)
    requires 1 <= page
    ensures page <= PageCount(|xs|) ==> |PageItems(xs, page)| > 0
    ensures page > PageCount(|xs|) ==> PageItems(xs, page) == []
  {
  }
}
