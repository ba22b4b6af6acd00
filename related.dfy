/**
 * `extractKeywords`, `calculateTitleSimilarity` and the selection performed
 * by `findRelatedPosts`: score every other post of the merged view, sort by
 * descending score, keep the first `maxResults`, drop those scoring zero.
 */
module Related {
  import opened JsText
  import opened Posts

  const StopWords: seq<string> := [
    "the", "a", "an", "and", "or", "but", "in", "on", "at", "to", "for", "of", "with", "by",
    "is", "are", "was", "were", "be", "been", "have", "has", "had", "do", "does", "did",
    "will", "would", "could", "should", "may", "might", "must", "can", "this", "that",
    "these", "those"]

  const MaxKeywords: nat := 20

  /** `.replace(/[^\w\s]/g, ' ')`: word characters and whitespace stay, anything else becomes a space. */
  function BlankNonWord(s: string): (r: string)
    ensures |r| == |s| && WordOrSpace(r)
    ensures forall i :: 0 <= i < |s| && (IsWordChar(s[i]) || IsWhitespace(s[i])) ==> r[i] == s[i]
    ensures forall i :: 0 <= i < |s| && !IsWordChar(s[i]) && !IsWhitespace(s[i]) ==> r[i] == ' '
  {
    seq(|s|, i requires 0 <= i < |s| => if IsWordChar(s[i]) || IsWhitespace(s[i]) then s[i] else ' ')
  }

  predicate IsKeyword(w: string) {
    |w| > 3 && w !in StopWords
  }

  /**
   * `.filter(word => word.length > 3 && !stopWords.includes(word))`: every
   * keyword occurrence is kept, every other word dropped.
   */
  function KeepKeywords(ws: seq<string>): (r: seq<string>)
    ensures |r| <= |ws|
    ensures forall i :: 0 <= i < |r| ==> IsKeyword(r[i]) && r[i] in ws
    decreases |ws|
  {
    if ws == [] then []
    else (if IsKeyword(ws[0]) then [ws[0]] else []) + KeepKeywords(ws[1..])
  }

  /** Each keyword occurs in the result as often as in the input; no other word occurs. */
  lemma {:induction false} KeepKeywordsCounts(ws: seq<string>)
    ensures forall w :: multiset(KeepKeywords(ws))[w] == if IsKeyword(w) then multiset(ws)[w] else 0
    decreases |ws|
  {
    if ws != [] {
      assert ws == [ws[0]] + ws[1..];
      KeepKeywordsCounts(ws[1..]);
    }
  }

  /** The filter keeps word order: it distributes over concatenation. */
  lemma {:induction false} KeepKeywordsAppend(a: seq<string>, b: seq<string>)
    ensures KeepKeywords(a + b) == KeepKeywords(a) + KeepKeywords(b)
    decreases |a|
  {
    if a == [] {
      assert a + b == b;
    } else {
      var h := if IsKeyword(a[0]) then [a[0]] else [];
      assert (a + b)[0] == a[0] && (a + b)[1..] == a[1..] + b;
      assert KeepKeywords(a + b) == h + KeepKeywords(a[1..] + b);
      KeepKeywordsAppend(a[1..], b);
    }
  }

  /** `.slice(0, n)`. */
  function Take<T>(xs: seq<T>, n: nat): (r: seq<T>)
    ensures |r| == if |xs| <= n then |xs| else n
    ensures r == xs[..|r|]
  {
    if |xs| <= n then xs else xs[..n]
  }

  /**
   * At most twenty keywords, in text order: the first ones of the keyword
   * filter applied to the pieces of the blanked text. Each is a run of more
   * than three `\w` characters that is not a stop word.
   */
  function ExtractKeywords(text: string): (kws: seq<string>)
    ensures var all := KeepKeywords(SplitWs(BlankNonWord(text)));
      |kws| == (if |all| <= MaxKeywords then |all| else MaxKeywords) && kws == all[..|kws|]
    ensures forall i :: 0 <= i < |kws| ==> IsKeyword(kws[i]) && AllWordChars(kws[i])
  {
    var words := SplitWs(BlankNonWord(text));
    SplitWordPieces(BlankNonWord(text));
    Take(KeepKeywords(words), MaxKeywords)
  }

  /** A text that is one keyword made of word characters yields exactly that keyword. */
  lemma ExtractKeywordsOfKeyword(w: string)
    requires AllWordChars(w) && IsKeyword(w)
    ensures ExtractKeywords(w) == [w]
  {
    assert BlankNonWord(w) == w;
    assert NoWhitespace(w) by {
      forall i | 0 <= i < |w| ensures !IsWhitespace(w[i]) { assert IsWordChar(w[i]); }
    }
    assert KeepKeywords([w]) == [w] + KeepKeywords([w][1..]);
  }

  /** `xs.filter(x => ys.includes(x))`: every occurrence in `xs` of a word of `ys`, and nothing else. */
  function CommonWords(xs: seq<string>, ys: seq<string>): (r: seq<string>)
    ensures |r| <= |xs|
    ensures forall i :: 0 <= i < |r| ==> r[i] in xs && r[i] in ys
    decreases |xs|
  {
    if xs == [] then []
    else (if xs[0] in ys then [xs[0]] else []) + CommonWords(xs[1..], ys)
  }

  /** Each word of `ys` occurs in the result as often as in `xs`; no other word occurs. */
  lemma {:induction false} CommonWordsCounts(xs: seq<string>, ys: seq<string>)
    ensures forall w :: multiset(CommonWords(xs, ys))[w] == if w in ys then multiset(xs)[w] else 0
    decreases |xs|
  {
    if xs != [] {
      assert xs == [xs[0]] + xs[1..];
      CommonWordsCounts(xs[1..], ys);
    }
  }

  /** The filter keeps the order of `xs`: it distributes over concatenation. */
  lemma {:induction false} CommonWordsAppend(a: seq<string>, b: seq<string>, ys: seq<string>)
    ensures CommonWords(a + b, ys) == CommonWords(a, ys) + CommonWords(b, ys)
    decreases |a|
  {
    if a == [] {
      assert a + b == b;
    } else {
      var h := if a[0] in ys then [a[0]] else [];
      assert (a + b)[0] == a[0] && (a + b)[1..] == a[1..] + b;
      assert CommonWords(a + b, ys) == h + CommonWords(a[1..] + b, ys);
      CommonWordsAppend(a[1..], b, ys);
    }
  }

  /**
   * `calculateTitleSimilarity`: the number of words of the first title that
   * occur in the second, divided by the number of distinct words of both.
   * Repeated words are counted in the numerator only, so the value is not
   * bounded by 1.
   */
  function TitleSimilarity(title1: string, title2: string): (r: real)
    ensures r >= 0.0
  {
    var words1 := SplitWs(Lower(title1));
    var words2 := SplitWs(Lower(title2));
    Ratio(|CommonWords(words1, words2)|, DistinctCount(words1 + words2))
  }

  /** `new Set(ws).size`: at least one for a non-empty list, never more than its length. */
  function DistinctCount(ws: seq<string>): (n: nat)
    ensures |ws| > 0 ==> n > 0
    ensures n <= |ws|
  {
    var distinct := set w | w in ws;
    assert |ws| > 0 ==> ws[0] in distinct;
    DistinctAtMost(ws);
    |distinct|
  }

  lemma {:induction false} DistinctAtMost(ws: seq<string>)
    ensures |set w | w in ws| <= |ws|
    decreases |ws|
  {
    if ws != [] {
      DistinctAtMost(ws[1..]);
      assert (set w | w in ws) == {ws[0]} + (set w | w in ws[1..]);
    }
  }

  /** `a / b` on non-negative counts, with the source's `totalWords > 0 ? ... : 0` guard. */
  function Ratio(a: nat, b: nat): (r: real)
    ensures r >= 0.0
  {
    if b > 0 then (a as real) / (b as real) else 0.0
  }

  /** The score `findRelatedPosts` gives `p` against the current post; `strip` stands for `stripHtmlAndDecode`. */
  function RelatedScore(current: Post, p: Post, strip: string -> string): (score: real)
    ensures score >= 0.0
    ensures p.category == current.category ==> score >= 50.0
    ensures p.author == current.author ==> score >= 20.0
  {
    var kw1 := ExtractKeywords(Lower(strip(current.content)));
    var kw2 := ExtractKeywords(Lower(strip(p.content)));
    (if p.category == current.category then 50.0 else 0.0)
    + (if p.author == current.author then 20.0 else 0.0)
    + 5.0 * (|CommonWords(kw1, kw2)| as real)
    + 10.0 * TitleSimilarity(current.title, p.title)
  }

  datatype Scored = Scored(post: Post, score: real)

  predicate Descending(s: seq<Scored>) {
    forall i, j :: 0 <= i < j < |s| ==> s[i].score >= s[j].score
  }

  /** Inserts `x` before the first entry it does not score below. */
  function Insert(x: Scored, s: seq<Scored>): (r: seq<Scored>)
    requires Descending(s)
    ensures Descending(r)
    ensures multiset(r) == multiset(s) + multiset{x}
    ensures |r| == |s| + 1
    decreases |s|
  {
    if s == [] || x.score >= s[0].score then [x] + s
    else
      var rest := Insert(x, s[1..]);
      assert multiset(s) == multiset{s[0]} + multiset(s[1..]) by { assert s == [s[0]] + s[1..]; }
      assert rest[0].score <= s[0].score by {
        assert rest[0] in multiset(rest);
        assert rest[0] == x || rest[0] in multiset(s[1..]);
        if rest[0] != x {
          assert rest[0] in s[1..];
        }
      }
      [s[0]] + rest
  }

  /** `sort((a, b) => b.score - a.score)`: descending by score, a permutation of the input. */
  function SortDesc(s: seq<Scored>): (r: seq<Scored>)
    ensures Descending(r)
    ensures multiset(r) == multiset(s)
    decreases |s|
  {
    if s == [] then []
    else
      assert s == [s[0]] + s[1..];
      Insert(s[0], SortDesc(s[1..]))
  }

  /**
   * `.filter(item => item.score > 0).map(item => item.post)`: the posts of the
   * positively scored entries, and only those.
   */
  function PositivePosts(s: seq<Scored>): (r: seq<Post>)
    ensures |r| <= |s|
    ensures forall p :: p in r ==> exists i :: 0 <= i < |s| && s[i].post == p && s[i].score > 0.0
    ensures forall i :: 0 <= i < |s| && s[i].score > 0.0 ==> s[i].post in r
    ensures (forall i :: 0 <= i < |s| ==> s[i].score > 0.0) ==> |r| == |s|
    decreases |s|
  {
    if s == [] then []
    else
      var rest := PositivePosts(s[1..]);
      assert forall p :: p in rest ==> exists i :: 0 <= i < |s| && s[i].post == p && s[i].score > 0.0 by {
        forall p | p in rest ensures exists i :: 0 <= i < |s| && s[i].post == p && s[i].score > 0.0 {
          var j :| 0 <= j < |s[1..]| && s[1..][j].post == p && s[1..][j].score > 0.0;
          assert s[j + 1] == s[1..][j];
        }
      }
      assert forall i :: 1 <= i < |s| && s[i].score > 0.0 ==> s[i].post in rest by {
        forall i | 1 <= i < |s| && s[i].score > 0.0 ensures s[i].post in rest {
          assert s[1..][i - 1] == s[i];
        }
      }
      (if s[0].score > 0.0 then [s[0].post] else []) + rest
  }

  /** The filter keeps entry order: it distributes over concatenation. */
  lemma {:induction false} PositivePostsAppend(a: seq<Scored>, b: seq<Scored>)
    ensures PositivePosts(a + b) == PositivePosts(a) + PositivePosts(b)
    decreases |a|
  {
    if a == [] {
      assert a + b == b;
    } else {
      var h := if a[0].score > 0.0 then [a[0].post] else [];
      assert (a + b)[0] == a[0] && (a + b)[1..] == a[1..] + b;
      assert PositivePosts(a + b) == h + PositivePosts(a[1..] + b);
      PositivePostsAppend(a[1..], b);
    }
  }

  /** `.map(item => item.post)`. */
  function PostsOf(s: seq<Scored>): seq<Post>
    decreases |s|
  {
    if s == [] then [] else [s[0].post] + PostsOf(s[1..])
  }

  lemma {:induction false} PostsOfAppend(a: seq<Scored>, b: seq<Scored>)
    ensures PostsOf(a + b) == PostsOf(a) + PostsOf(b)
    decreases |a|
  {
    if a == [] {
      assert a + b == b;
    } else {
      assert (a + b)[0] == a[0] && (a + b)[1..] == a[1..] + b;
      PostsOfAppend(a[1..], b);
    }
  }

  /** The posts of the scored candidates are the candidates. */
  lemma {:induction false} PostsOfScoreAll(current: Post, cands: seq<Post>, score: (Post, Post) -> real)
    ensures PostsOf(ScoreAll(current, cands, score)) == cands
    decreases |cands|
  {
    if cands != [] {
      assert ScoreAll(current, cands, score)[1..] == ScoreAll(current, cands[1..], score);
      PostsOfScoreAll(current, cands[1..], score);
    }
  }

  /** Inserting an entry adds its post to the posts' multiset. */
  lemma {:induction false} InsertPosts(x: Scored, s: seq<Scored>)
    requires Descending(s)
    ensures multiset(PostsOf(Insert(x, s))) == multiset(PostsOf(s)) + multiset{x.post}
    decreases |s|
  {
    if s == [] || x.score >= s[0].score {
      assert ([x] + s)[1..] == s;
    } else {
      var rest := Insert(x, s[1..]);
      InsertPosts(x, s[1..]);
      assert ([s[0]] + rest)[1..] == rest;
      assert PostsOf(Insert(x, s)) == [s[0].post] + PostsOf(rest);
    }
  }

  /** Sorting rearranges the posts of the entries, changing none. */
  lemma {:induction false} SortDescPosts(s: seq<Scored>)
    ensures multiset(PostsOf(SortDesc(s))) == multiset(PostsOf(s))
    decreases |s|
  {
    if s != [] {
      SortDescPosts(s[1..]);
      InsertPosts(s[0], SortDesc(s[1..]));
    }
  }

  /** The filter keeps each post at most as often as the entries carry it. */
  lemma {:induction false} PositivePostsWithin(s: seq<Scored>)
    ensures multiset(PositivePosts(s)) <= multiset(PostsOf(s))
    decreases |s|
  {
    if s != [] {
      PositivePostsWithin(s[1..]);
    }
  }

  /** `order` lists every key of `all` exactly once, as `Object.values` enumerates them. */
  predicate ListsKeys(order: seq<string>, all: map<string, Post>) {
    && (forall i :: 0 <= i < |order| ==> order[i] in all)
    && (forall k :: k in all ==> k in order)
    && (forall i, j :: 0 <= i < j < |order| ==> order[i] != order[j])
  }

  /**
   * The posts `Object.values(allPostsData)` enumerates, in `order`, other
   * than those whose id is the current one.
   */
  function Candidates(all: map<string, Post>, order: seq<string>, currentId: string): (cands: seq<Post>)
    requires forall i :: 0 <= i < |order| ==> order[i] in all
    ensures |cands| <= |order|
    ensures forall i :: 0 <= i < |cands| ==> cands[i].id != currentId && cands[i] in all.Values
    ensures forall i :: 0 <= i < |order| && all[order[i]].id != currentId ==> all[order[i]] in cands
    decreases |order|
  {
    if order == [] then []
    else
      var p := all[order[0]];
      var rest := Candidates(all, order[1..], currentId);
      assert forall i :: 1 <= i < |order| && all[order[i]].id != currentId ==> all[order[i]] in rest by {
        forall i | 1 <= i < |order| && all[order[i]].id != currentId ensures all[order[i]] in rest {
          assert order[1..][i - 1] == order[i];
        }
      }
      (if p.id != currentId then [p] else []) + rest
  }

  /** When `order` lists every key, every post of the merged view with another id is a candidate. */
  lemma CandidatesComplete(all: map<string, Post>, order: seq<string>, currentId: string)
    requires ListsKeys(order, all)
    ensures forall p :: p in all.Values && p.id != currentId ==> p in Candidates(all, order, currentId)
  {
    forall p | p in all.Values && p.id != currentId ensures p in Candidates(all, order, currentId) {
      var k :| k in all && all[k] == p;
      var i :| 0 <= i < |order| && order[i] == k;
    }
  }

  /** Pairs each candidate with its score against the current post. */
  function ScoreAll(current: Post, cands: seq<Post>, score: (Post, Post) -> real): (s: seq<Scored>)
    ensures |s| == |cands|
    ensures forall i :: 0 <= i < |s| ==> s[i] == Scored(cands[i], score(current, cands[i]))
  {
    seq(|cands|, i requires 0 <= i < |cands| => Scored(cands[i], score(current, cands[i])))
  }

  /** Every entry carries its post's true score and comes from the candidates. */
  predicate Faithful(s: seq<Scored>, current: Post, cands: seq<Post>, score: (Post, Post) -> real) {
    forall i :: 0 <= i < |s| ==> s[i].score == score(current, s[i].post) && s[i].post in cands
  }

  /** Every selected post is a candidate with a positive score. */
  lemma PositivePostsSound(s: seq<Scored>, current: Post, cands: seq<Post>, score: (Post, Post) -> real)
    requires Faithful(s, current, cands, score)
    ensures forall i :: 0 <= i < |PositivePosts(s)| ==>
      PositivePosts(s)[i] in cands && score(current, PositivePosts(s)[i]) > 0.0
  {
    var r := PositivePosts(s);
    forall i | 0 <= i < |r| ensures r[i] in cands && score(current, r[i]) > 0.0 {
      assert r[i] in r;
      var j :| 0 <= j < |s| && s[j].post == r[i] && s[j].score > 0.0;
    }
  }

  /** No selected post scores above the head of a descending, faithful list. */
  lemma PositivePostsBounded(s: seq<Scored>, current: Post, cands: seq<Post>, score: (Post, Post) -> real)
    requires s != [] && Descending(s) && Faithful(s, current, cands, score)
    ensures forall k :: 0 <= k < |PositivePosts(s)| ==> score(current, PositivePosts(s)[k]) <= s[0].score
  {
    var r := PositivePosts(s);
    forall k | 0 <= k < |r| ensures score(current, r[k]) <= s[0].score {
      assert r[k] in r;
      var j :| 0 <= j < |s| && s[j].post == r[k] && s[j].score > 0.0;
    }
  }

  /** Filtering a descending, faithful list keeps the posts in descending score order. */
  lemma {:induction false} PositivePostsOrdered(s: seq<Scored>, current: Post, cands: seq<Post>, score: (Post, Post) -> real)
    requires Descending(s) && Faithful(s, current, cands, score)
    ensures forall i, j :: 0 <= i < j < |PositivePosts(s)| ==>
      score(current, PositivePosts(s)[i]) >= score(current, PositivePosts(s)[j])
    decreases |s|
  {
    if s != [] {
      var t := s[1..];
      assert Descending(t) && Faithful(t, current, cands, score);
      PositivePostsOrdered(t, current, cands, score);
      var p := PositivePosts(s);
      var q := PositivePosts(t);
      if s[0].score > 0.0 {
        assert p == [s[0].post] + q;
        if t != [] {
          PositivePostsBounded(t, current, cands, score);
        }
        forall i, j | 0 <= i < j < |p| ensures score(current, p[i]) >= score(current, p[j]) {
          assert p[j] == q[j - 1];
          if i > 0 {
            assert p[i] == q[i - 1];
          }
        }
      } else {
        assert p == q;
      }
    }
  }

  /** Every candidate appears in the sorted list, paired with its score. */
  lemma CandidateSorted(current: Post, cands: seq<Post>, score: (Post, Post) -> real, p: Post)
    requires p in cands
    ensures Scored(p, score(current, p)) in SortDesc(ScoreAll(current, cands, score))
  {
    var scored := ScoreAll(current, cands, score);
    var k :| 0 <= k < |cands| && cands[k] == p;
    assert scored[k] == Scored(p, score(current, p));
    assert scored[k] in multiset(scored);
  }

  /** With no more candidates than result slots, every positively scored candidate is returned. */
  lemma AllPositiveKept(current: Post, cands: seq<Post>, score: (Post, Post) -> real, maxResults: nat)
    requires |cands| <= maxResults
    ensures forall p :: p in cands && score(current, p) > 0.0 ==>
      p in PositivePosts(Take(SortDesc(ScoreAll(current, cands, score)), maxResults))
  {
    var scored := ScoreAll(current, cands, score);
    var sorted := SortDesc(scored);
    assert |sorted| == |cands| by { assert |multiset(sorted)| == |multiset(scored)|; }
    assert Take(sorted, maxResults) == sorted;
    forall p | p in cands && score(current, p) > 0.0 ensures p in PositivePosts(sorted) {
      CandidateSorted(current, cands, score, p);
    }
  }

  /** The sorted list is faithful whenever the list it sorts is. */
  lemma SortedFaithful(s: seq<Scored>, current: Post, cands: seq<Post>, score: (Post, Post) -> real)
    requires Faithful(s, current, cands, score)
    ensures Faithful(SortDesc(s), current, cands, score)
  {
    var r := SortDesc(s);
    forall i | 0 <= i < |r| ensures r[i].score == score(current, r[i].post) && r[i].post in cands {
      assert r[i] in multiset(r);
      assert r[i] in multiset(s);
    }
  }

  /**
   * Keeping the first `k` entries of a descending, faithful list and then the
   * positive ones selects a best set: an entry left out never scores above a
   * selected post, and when fewer than `k` posts are selected every positive
   * entry is.
   */
  lemma TopIsBest(sorted: seq<Scored>, k: nat, current: Post, cands: seq<Post>, score: (Post, Post) -> real)
    requires Descending(sorted) && Faithful(sorted, current, cands, score)
    ensures forall y, x :: y in sorted && y.post !in PositivePosts(Take(sorted, k)) && x in PositivePosts(Take(sorted, k)) ==>
      score(current, x) >= y.score
    ensures |PositivePosts(Take(sorted, k))| < k ==>
      forall y :: y in sorted && y.score > 0.0 ==> y.post in PositivePosts(Take(sorted, k))
  {
    var top := Take(sorted, k);
    var r := PositivePosts(top);
    forall y, x | y in sorted && y.post !in r && x in r ensures score(current, x) >= y.score {
      var j :| 0 <= j < |sorted| && sorted[j] == y;
      var i :| 0 <= i < |top| && top[i].post == x && top[i].score > 0.0;
      assert top[i] == sorted[i];
      if j < |top| {
        assert top[j] == y;
      }
    }
    if |r| < k {
      forall y | y in sorted && y.score > 0.0 ensures y.post in r {
        var j :| 0 <= j < |sorted| && sorted[j] == y;
        if j < |top| {
          assert top[j] == y;
        } else {
          assert false;
        }
      }
    }
  }

  /** No candidate left out of the selection scores above a selected one. */
  lemma SelectionIsBest(current: Post, cands: seq<Post>, score: (Post, Post) -> real, k: nat)
    ensures var r := PositivePosts(Take(SortDesc(ScoreAll(current, cands, score)), k));
      forall x, y :: x in r && y in cands && y !in r ==> score(current, x) >= score(current, y)
  {
    var scored := ScoreAll(current, cands, score);
    var sorted := SortDesc(scored);
    SortedFaithful(scored, current, cands, score);
    var r := PositivePosts(Take(sorted, k));
    TopIsBest(sorted, k, current, cands, score);
    forall x, y | x in r && y in cands && y !in r ensures score(current, x) >= score(current, y) {
      CandidateSorted(current, cands, score, y);
    }
  }

  /** A selection with a slot to spare holds every positively scored candidate. */
  lemma SelectionIsFull(current: Post, cands: seq<Post>, score: (Post, Post) -> real, k: nat)
    ensures var r := PositivePosts(Take(SortDesc(ScoreAll(current, cands, score)), k));
      |r| < k ==> forall p :: p in cands && score(current, p) > 0.0 ==> p in r
  {
    var scored := ScoreAll(current, cands, score);
    var sorted := SortDesc(scored);
    SortedFaithful(scored, current, cands, score);
    var r := PositivePosts(Take(sorted, k));
    TopIsBest(sorted, k, current, cands, score);
    forall p | |r| < k && p in cands && score(current, p) > 0.0 ensures p in r {
      CandidateSorted(current, cands, score, p);
    }
  }

  /** The selection never holds a post more often than the candidates do. */
  lemma SelectionWithin(current: Post, cands: seq<Post>, score: (Post, Post) -> real, k: nat)
    ensures multiset(PositivePosts(Take(SortDesc(ScoreAll(current, cands, score)), k))) <= multiset(cands)
  {
    var scored := ScoreAll(current, cands, score);
    var sorted := SortDesc(scored);
    var top := Take(sorted, k);
    PostsOfScoreAll(current, cands, score);
    SortDescPosts(scored);
    assert sorted == top + sorted[|top|..];
    PostsOfAppend(top, sorted[|top|..]);
    PositivePostsWithin(top);
  }

  /**
   * Sort the candidates by descending score, keep the first `maxResults`,
   * drop those not scoring above zero.
   */
  function SelectTop(current: Post, cands: seq<Post>, score: (Post, Post) -> real, maxResults: nat): (r: seq<Post>)
    ensures |r| <= maxResults
    ensures forall i :: 0 <= i < |r| ==> r[i] in cands && score(current, r[i]) > 0.0
    ensures forall i, j :: 0 <= i < j < |r| ==> score(current, r[i]) >= score(current, r[j])
    ensures forall x, y :: x in r && y in cands && y !in r ==> score(current, x) >= score(current, y)
    ensures |r| < maxResults ==> forall p :: p in cands && score(current, p) > 0.0 ==> p in r
    ensures |cands| <= maxResults ==> forall p :: p in cands && score(current, p) > 0.0 ==> p in r
    ensures multiset(r) <= multiset(cands)
  {
    var scored := ScoreAll(current, cands, score);
    assert Faithful(scored, current, cands, score);
    var sorted := SortDesc(scored);
    SortedFaithful(scored, current, cands, score);
    var top := Take(sorted, maxResults);
    assert Descending(top) && Faithful(top, current, cands, score);
    PositivePostsSound(top, current, cands, score);
    PositivePostsOrdered(top, current, cands, score);
    var r := PositivePosts(top);
    SelectionIsBest(current, cands, score, maxResults);
    SelectionIsFull(current, cands, score, maxResults);
    SelectionWithin(current, cands, score, maxResults);
    assert |cands| <= maxResults ==> forall p :: p in cands && score(current, p) > 0.0 ==> p in r by {
      if |cands| <= maxResults {
        AllPositiveKept(current, cands, score, maxResults);
      }
    }
    r
  }

  /**
   * `findRelatedPosts` for an arbitrary scoring function, with `order` the
   * key order of the merged view. The result is empty for an unknown id; it
   * has at most `maxResults` posts, none of them the current post, each from
   * the merged view with a positive score, in descending score order. No
   * post left out scores above one returned, and when fewer than
   * `maxResults` are returned every positively scored post is.
   */
  function FindRelated(all: map<string, Post>, order: seq<string>, currentId: string,
                       score: (Post, Post) -> real, maxResults: nat): (r: seq<Post>)
    requires ListsKeys(order, all)
    ensures currentId !in all ==> r == []
    ensures |r| <= maxResults
    ensures forall i :: 0 <= i < |r| ==> r[i].id != currentId && r[i] in all.Values
    ensures currentId in all ==> forall i :: 0 <= i < |r| ==> score(all[currentId], r[i]) > 0.0
    ensures currentId in all ==> forall i, j :: 0 <= i < j < |r| ==>
      score(all[currentId], r[i]) >= score(all[currentId], r[j])
    ensures currentId in all ==> forall x, y :: x in r && y in all.Values && y.id != currentId && y !in r ==>
      score(all[currentId], x) >= score(all[currentId], y)
    ensures currentId in all && |r| < maxResults ==>
      forall p :: p in all.Values && p.id != currentId && score(all[currentId], p) > 0.0 ==> p in r
    ensures currentId in all && |Candidates(all, order, currentId)| <= maxResults ==>
      forall p :: p in Candidates(all, order, currentId) && score(all[currentId], p) > 0.0 ==> p in r
    ensures currentId in all ==> multiset(r) <= multiset(Candidates(all, order, currentId))
  {
    if currentId !in all then []
    else
      var cands := Candidates(all, order, currentId);
      CandidatesComplete(all, order, currentId);
      var r := SelectTop(all[currentId], cands, score, maxResults);
      assert forall i :: 0 <= i < |r| ==> r[i] in cands;
      r
  }

  /**
   * `findRelatedPosts(currentPostId, maxResults)` with the site's own score,
   * which `FindRelated` already covers for every scoring function.
   */
  function FindRelatedPosts(all: map<string, Post>, order: seq<string>, currentId: string,
                            strip: string -> string, maxResults: nat): (r: seq<Post>)
    requires ListsKeys(order, all)
    ensures currentId !in all ==> r == []
    ensures |r| <= maxResults
    ensures forall i :: 0 <= i < |r| ==> r[i].id != currentId && r[i] in all.Values
    ensures currentId in all ==> forall i :: 0 <= i < |r| ==> RelatedScore(all[currentId], r[i], strip) > 0.0
    ensures currentId in all ==> forall i, j :: 0 <= i < j < |r| ==>
      RelatedScore(all[currentId], r[i], strip) >= RelatedScore(all[currentId], r[j], strip)
    ensures currentId in all ==> forall x, y :: x in r && y in all.Values && y.id != currentId && y !in r ==>
      RelatedScore(all[currentId], x, strip) >= RelatedScore(all[currentId], y, strip)
    ensures currentId in all && |r| < maxResults ==>
      forall p :: p in all.Values && p.id != currentId && RelatedScore(all[currentId], p, strip) > 0.0 ==> p in r
    ensures currentId in all && |Candidates(all, order, currentId)| <= maxResults ==>
      forall p :: p in Candidates(all, order, currentId) && RelatedScore(all[currentId], p, strip) > 0.0 ==> p in r
    ensures currentId in all ==> multiset(r) <= multiset(Candidates(all, order, currentId))
  {
    var score := (a: Post, b: Post) => RelatedScore(a, b, strip);
    assert forall a, b :: score(a, b) == RelatedScore(a, b, strip);
    FindRelated(all, order, currentId, score, maxResults)
  }
}
