/**
 * Posts and comments: the built-in catalog merged with locally authored
 * posts (`{...postsData, ...getLocalPosts()}`), the slug a new post is keyed
 * by, the image-path rule, per-post comment lists, and the saved-articles
 * list of the profile page.
 */
module Posts {
  import opened JsText
  import Security

  /** `date` is the display string shown on the post; `image` a relative path, URL or data URI. */
  datatype Post = Post(
    id: string,
    title: string,
    author: string,
    date: string,
    category: string,
    image: string,
    content: string)

  /** `date` is a timestamp in milliseconds. */
  datatype Comment = Comment(author: string, text: string, date: int)

  /** Every post is stored under its own id. */
  predicate KeyedById(posts: map<string, Post>) {
    forall k :: k in posts ==> posts[k].id == k
  }

  /** The merged post view: built-in posts overlaid by the locally stored ones. */
  function Merge(builtIn: map<string, Post>, local: map<string, Post>): (all: map<string, Post>)
    ensures all.Keys == builtIn.Keys + local.Keys
    ensures forall k :: k in local ==> all[k] == local[k]
    ensures forall k :: k in builtIn && k !in local ==> all[k] == builtIn[k]
  {
    builtIn + local
  }

  /** If both sources store posts under their ids, so does the merged view. */
  lemma MergeKeyedById(builtIn: map<string, Post>, local: map<string, Post>)
    requires KeyedById(builtIn) && KeyedById(local)
    ensures KeyedById(Merge(builtIn, local))
  {
  }

  /** A local post with the id of a built-in one shadows it, and only it. */
  lemma ShadowOne(builtIn: map<string, Post>, local: map<string, Post>, p: Post)
    ensures Merge(builtIn, local[p.id := p])[p.id] == p
    ensures forall k :: k in Merge(builtIn, local) && k != p.id ==>
      Merge(builtIn, local[p.id := p])[k] == Merge(builtIn, local)[k]
  {
  }

  predicate IsSlugChar(c: char) {
    ('a' <= c <= 'z') || ('0' <= c <= '9') || c == '-'
  }

  predicate IsSlug(s: string) {
    forall i :: 0 <= i < |s| ==> IsSlugChar(s[i])
  }

  /** `.replace(/\s+/g, '-')`: every maximal run of whitespace becomes one hyphen. */
  function CollapseWs(s: string): (r: string)
    ensures NoWhitespace(r) && |r| <= |s|
    ensures NoWhitespace(s) ==> r == s
    decreases |s|
  {
    if s == [] then []
    else if IsWhitespace(s[0]) then "-" + CollapseWs(s[LeadingWs(s)..])
    else [s[0]] + CollapseWs(s[1..])
  }

  /** A non-empty run made only of whitespace becomes a single hyphen. */
  lemma CollapseWsRun(s: string)
    requires s != [] && forall i :: 0 <= i < |s| ==> IsWhitespace(s[i])
    ensures CollapseWs(s) == "-"
  {
    assert LeadingWs(s) == |s|;
    assert s[|s|..] == [];
  }

  /**
   * Cut anywhere except inside a whitespace run, the collapse of the whole is
   * the collapse of the parts: together with `CollapseWsRun` and the
   * whitespace-free case this says every run becomes one hyphen and every
   * other character stays, in order.
   */
  lemma {:induction false} CollapseWsAppend(a: string, b: string)
    requires a == [] || b == [] || !IsWhitespace(a[|a| - 1]) || !IsWhitespace(b[0])
    ensures CollapseWs(a + b) == CollapseWs(a) + CollapseWs(b)
    decreases |a|
  {
    if a == [] {
      assert a + b == b;
    } else if b == [] {
      assert a + b == a;
    } else if !IsWhitespace(a[0]) {
      var t := a[1..];
      assert (a + b)[0] == a[0] && (a + b)[1..] == t + b;
      assert t == [] || t[|t| - 1] == a[|a| - 1];
      CollapseWsAppend(t, b);
      assert CollapseWs(a) == [a[0]] + CollapseWs(t);
      assert CollapseWs(a + b) == [a[0]] + CollapseWs(t + b);
    } else {
      var n := LeadingWs(a);
      LeadingWsAppend(a, b);
      assert (a + b)[0] == a[0];
      if n < |a| {
        var t := a[n..];
        assert (a + b)[n..] == t + b;
        assert t[|t| - 1] == a[|a| - 1];
        CollapseWsAppend(t, b);
        assert CollapseWs(a) == "-" + CollapseWs(t);
        assert CollapseWs(a + b) == "-" + CollapseWs(t + b);
      } else {
        assert IsWhitespace(a[|a| - 1]);
        assert (a + b)[|a|..] == b;
        assert a[|a|..] == [];
        assert CollapseWs(a) == "-";
        assert CollapseWs(a + b) == "-" + CollapseWs(b);
      }
    }
  }

  /** `.replace(/[^a-z0-9-]+/g, '')`: keeps exactly the slug characters. */
  function KeepSlugChars(s: string): (r: string)
    ensures IsSlug(r) && |r| <= |s|
    ensures IsSlug(s) ==> r == s
    decreases |s|
  {
    if s == [] then []
    else (if IsSlugChar(s[0]) then [s[0]] else []) + KeepSlugChars(s[1..])
  }

  /** A character survives iff it is a slug character of the input. */
  lemma {:induction false} KeepSlugCharsMembers(s: string)
    ensures forall c :: c in KeepSlugChars(s) <==> c in s && IsSlugChar(c)
    decreases |s|
  {
    if s != [] {
      assert s == [s[0]] + s[1..];
      KeepSlugCharsMembers(s[1..]);
    }
  }

  /** The filter keeps character order: it distributes over concatenation. */
  lemma {:induction false} KeepSlugCharsAppend(a: string, b: string)
    ensures KeepSlugChars(a + b) == KeepSlugChars(a) + KeepSlugChars(b)
    decreases |a|
  {
    if a == [] {
      assert a + b == b;
    } else {
      var h := if IsSlugChar(a[0]) then [a[0]] else [];
      assert (a + b)[0] == a[0] && (a + b)[1..] == a[1..] + b;
      assert KeepSlugChars(a + b) == h + KeepSlugChars(a[1..] + b);
      KeepSlugCharsAppend(a[1..], b);
    }
  }

  /** The id of a new post, derived from its (trimmed) title. */
  function Slug(title: string): (id: string)
    ensures IsSlug(id)
  {
    KeepSlugChars(CollapseWs(Lower(Security.EscapeHtml(title))))
  }

  /** A title that is already a slug is its own slug; hence deriving a slug is idempotent. */
  lemma SlugOfSlug(title: string)
    requires IsSlug(title)
    ensures Slug(title) == title
  {
    assert forall i :: 0 <= i < |title| ==> !Security.IsEscaped(title[i]) by {
      forall i | 0 <= i < |title| ensures !Security.IsEscaped(title[i]) { assert IsSlugChar(title[i]); }
    }
    assert Lower(title) == title;
    assert NoWhitespace(title);
  }

  lemma SlugIdempotent(title: string)
    ensures Slug(Slug(title)) == Slug(title)
  {
    SlugOfSlug(Slug(title));
  }

  /**
   * A title without letters, digits or whitespace, such as "!!!", passes the
   * title check of the create-post form yet yields the empty id.
   */
  lemma EmptySlug()
    ensures Security.ValidateTextInput(Security.Str("!!!"), 200)
    ensures Slug("!!!") == ""
  {
    var t := "!!!";
    assert !IsWhitespace(t[0]);
    assert forall i :: 0 <= i < |t| ==> !Security.IsEscaped(t[i]);
    assert Lower(t) == t;
    assert CollapseWs(t) == t;
    KeepSlugCharsNone(t);
  }

  /** Nothing survives the filter when no character is a slug character. */
  lemma {:induction false} KeepSlugCharsNone(s: string)
    requires forall i :: 0 <= i < |s| ==> !IsSlugChar(s[i])
    ensures KeepSlugChars(s) == ""
    decreases |s|
  {
    if s != [] {
      KeepSlugCharsNone(s[1..]);
    }
  }

  /** The image shown for a post when no upload was made. */
  const FallbackImage: string := "https://images.unsplash.com/photo-1515263487990-61b07816b324?q=80&w=2070&auto=format&fit=crop"

  predicate IsExternalOrData(image: string) {
    StartsWith(image, "http") || StartsWith(image, "data:")
  }

  /** The `src` used for a post image: URLs and data URIs as they are, other paths one directory up. */
  function ImageSrc(image: string): (src: string)
    ensures EndsWith(src, image)
    ensures src == image <==> IsExternalOrData(image)
    ensures src != image ==> StartsWith(src, "../")
    ensures !IsExternalOrData(image) ==> src == "../" + image
  {
    if IsExternalOrData(image) then image else "../" + image
  }

  /** `allComments[postId].push(c)`, creating the list if the post had none. */
  function AppendComment(all: map<string, seq<Comment>>, postId: string, c: Comment): (r: map<string, seq<Comment>>)
    ensures r.Keys == all.Keys + {postId}
    ensures r[postId] == (if postId in all then all[postId] else []) + [c]
    ensures forall k :: k in all && k != postId ==> r[k] == all[k]
  {
    all[postId := (if postId in all then all[postId] else []) + [c]]
  }

  /** What the profile page shows for one saved article. */
  datatype SavedCard = SavedCard(id: string, title: string, date: string, imageSrc: string)

  /** The saved ids that resolve in the merged view, in saved order. */
  function ResolvedIds(saved: seq<string>, posts: map<string, Post>): (ids: seq<string>)
    ensures |ids| <= |saved|
    ensures forall i :: 0 <= i < |ids| ==> ids[i] in posts && ids[i] in saved
    ensures forall i :: 0 <= i < |saved| && saved[i] in posts ==> saved[i] in ids
    decreases |saved|
  {
    if saved == [] then []
    else (if saved[0] in posts then [saved[0]] else []) + ResolvedIds(saved[1..], posts)
  }

  /** Resolution keeps saved order: it distributes over concatenation. */
  lemma {:induction false} ResolvedIdsAppend(a: seq<string>, b: seq<string>, posts: map<string, Post>)
    ensures ResolvedIds(a + b, posts) == ResolvedIds(a, posts) + ResolvedIds(b, posts)
    decreases |a|
  {
    if a == [] {
      assert a + b == b;
    } else {
      assert (a + b)[1..] == a[1..] + b;
      ResolvedIdsAppend(a[1..], b, posts);
    }
  }

  /** When every saved id resolves, nothing is skipped. */
  lemma {:induction false} ResolvedIdsAll(saved: seq<string>, posts: map<string, Post>)
    requires forall i :: 0 <= i < |saved| ==> saved[i] in posts
    ensures ResolvedIds(saved, posts) == saved
    decreases |saved|
  {
    if saved != [] {
      ResolvedIdsAll(saved[1..], posts);
    }
  }

  function Card(p: Post): SavedCard {
    SavedCard(p.id, p.title, p.date, ImageSrc(p.image))
  }

  /** The cards of the "My Saved Articles" grid: one per saved id found in the merged view, in saved order. */
  function SavedArticleCards(saved: seq<string>, posts: map<string, Post>): (cards: seq<SavedCard>)
    ensures |cards| == |ResolvedIds(saved, posts)| <= |saved|
    ensures forall i :: 0 <= i < |cards| ==> cards[i] == Card(posts[ResolvedIds(saved, posts)[i]])
  {
    var ids := ResolvedIds(saved, posts);
    seq(|ids|, i requires 0 <= i < |ids| => Card(posts[ids[i]]))
  }
}
