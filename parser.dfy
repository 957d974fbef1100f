/**
 * `FacebookParser` (selenium_scraper/parser.py): turns each post block of a
 * search page into a `PostModel` and keeps the valid ones. The markup is
 * taken as already parsed: a post block is the handful of things the
 * extraction rules look at.
 */
module Parser {
  import opened Wrappers
  import opened Text
  import opened NumberParsing
  import opened Model
  import opened Sequences

  /**
   * A `span` element with the spans nearest below it, in document order
   * (other elements in between are left out, so the first span that
   * `find("span")` meets below a span is its first child here).
   */
  datatype SpanTree = SpanTree(text: string, spans: seq<SpanTree>)

  /**
   * What the extraction rules read from one post block:
   * - `profileName`: the `profile_name` div, as its top-level spans; `None` when the block has no such div;
   * - `message`: the text of the `message` div; `None` when there is none;
   * - `imageSources`: the `src` attribute of every `img`, in document order; `None` when the attribute is missing;
   * - `spanTexts`: the text of every span, in document order;
   * - `raises`: an exception escapes the per-post extraction of this block.
   */
  datatype PostBlock = PostBlock(
    profileName: Option<seq<SpanTree>>,
    message: Option<string>,
    imageSources: seq<Option<string>>,
    spanTexts: seq<string>,
    raises: bool)

  /** The fields `_parse_single_post` extracts, before they go through the `PostModel` constructor. */
  datatype Fields = Fields(
    pageName: Option<string>,
    text: Option<string>,
    images: seq<string>,
    comments: Option<nat>,
    shares: Option<nat>)

  // ---------------------------------------------------------------------
  // Page name: `_extract_page_name`

  /** The span reached by taking the first inner span until a span has none. */
  function FirstLeaf(t: SpanTree): (leaf: SpanTree)
    ensures leaf.spans == []
  {
    if t.spans == [] then t else FirstLeaf(t.spans[0])
  }

  /** `k` steps down the first-child path of `t`, stopping early at a span without spans. */
  function Descend(t: SpanTree, k: nat): SpanTree {
    if k == 0 || t.spans == [] then t else Descend(t.spans[0], k - 1)
  }

  /** The number of steps from `t` down to `FirstLeaf(t)`. */
  function LeafDepth(t: SpanTree): nat {
    if t.spans == [] then 0 else 1 + LeafDepth(t.spans[0])
  }

  /**
   * The descent stops at the first span on the first-child path that has no
   * span inside it: every span passed on the way has one.
   */
  lemma {:induction false} FirstLeafIsFirstChildless(t: SpanTree)
    ensures Descend(t, LeafDepth(t)) == FirstLeaf(t)
    ensures forall j: nat :: j < LeafDepth(t) ==> Descend(t, j).spans != []
  {
    if t.spans != [] {
      FirstLeafIsFirstChildless(t.spans[0]);
      forall j: nat | j < LeafDepth(t) ensures Descend(t, j).spans != [] {
        if j > 0 { assert Descend(t, j) == Descend(t.spans[0], j - 1); }
      }
    }
  }

  /** The author `_extract_page_name` finds in a block. */
  function PageNameOf(b: PostBlock): Option<string> {
    match b.profileName
    case None => None
    case Some(spans) => if spans == [] then None else Some(Strip(FirstLeaf(spans[0]).text))
  }

  /**
   * `_extract_page_name`: no author without a `profile_name` div holding a
   * span; otherwise the stripped text of the innermost first span.
   */
  method ExtractPageName(b: PostBlock) returns (name: Option<string>)
    ensures name == PageNameOf(b)
    ensures name.None? <==> b.profileName.None? || b.profileName.value == []
  {
    name := None;
    if b.profileName.Some? && b.profileName.value != [] {
      var span := b.profileName.value[0];
      while span.spans != []
        invariant FirstLeaf(span) == FirstLeaf(b.profileName.value[0])
        decreases span
      {
        span := span.spans[0];
      }
      name := Some(Strip(span.text));
    }
  }

  // ---------------------------------------------------------------------
  // Text: `_extract_text`

  /** `_extract_text`: the stripped text of the `message` div, `None` without one. */
  function TextOf(b: PostBlock): (text: Option<string>)
    ensures text.None? <==> b.message.None?
    ensures text.Some? ==> text.value == [] || (!IsSpace(text.value[0]) && !IsSpace(text.value[|text.value| - 1]))
  {
    match b.message
    case None => None
    case Some(t) => StripShape(t); Some(Strip(t))
  }

  // ---------------------------------------------------------------------
  // Images: `_extract_images`

  /** The image filter: a web address on the CDN that is not an emoji, a sticker or an inline image. */
  predicate IsPostImage(src: string) {
    StartsWith(src, "http")
    && Contains(src, "fbcdn.net")
    && !Contains(src, "emoji.php")
    && !Contains(src, "sticker")
    && !StartsWith(src, "data:image")
  }

  /** The `src` the loop reads from each `img`: `img.get("src", "")`. */
  function Sources(imgs: seq<Option<string>>): (srcs: seq<string>)
    ensures |srcs| == |imgs|
    ensures forall i :: 0 <= i < |imgs| ==> srcs[i] == imgs[i].GetOr("")
  {
    seq(|imgs|, i requires 0 <= i < |imgs| => imgs[i].GetOr(""))
  }

  /** The image addresses `_extract_images` keeps. */
  function PostImages(srcs: seq<string>): seq<string> {
    if srcs == [] then []
    else PostImages(srcs[..|srcs| - 1]) + (if IsPostImage(srcs[|srcs| - 1]) then [srcs[|srcs| - 1]] else [])
  }

  /** `_extract_images`: appends every `src` that passes the filter, in document order. */
  method ExtractImages(b: PostBlock) returns (urls: seq<string>)
    ensures urls == PostImages(Sources(b.imageSources))
  {
    var srcs := Sources(b.imageSources);
    urls := [];
    var i := 0;
    while i < |b.imageSources|
      invariant 0 <= i <= |b.imageSources|
      invariant urls == PostImages(srcs[..i])
    {
      var src := b.imageSources[i].GetOr("");
      assert srcs[..i + 1][..i] == srcs[..i];
      if IsPostImage(src) {
        urls := urls + [src];
      }
      i := i + 1;
    }
    assert srcs[..i] == srcs;
  }

  /** Each source passing the filter is kept as many times as it occurs, and no other. */
  lemma {:induction false} PostImagesCount(srcs: seq<string>)
    ensures forall s :: multiset(PostImages(srcs))[s] == if IsPostImage(s) then multiset(srcs)[s] else 0
  {
    if srcs != [] {
      var init, last := srcs[..|srcs| - 1], srcs[|srcs| - 1];
      PostImagesCount(init);
      assert srcs == init + [last];
      assert multiset(srcs) == multiset(init) + multiset{last};
      if IsPostImage(last) {
        assert multiset(PostImages(srcs)) == multiset(PostImages(init)) + multiset{last};
      } else {
        assert PostImages(srcs) == PostImages(init);
      }
    }
  }

  /**
   * The kept addresses are exactly the sources that pass the filter, in
   * their original order: a subsequence, each passing, and every passing
   * source kept as many times as it occurs.
   */
  lemma PostImagesIsFilter(srcs: seq<string>)
    ensures IsSubsequence(PostImages(srcs), srcs)
    ensures |PostImages(srcs)| <= |srcs|
    ensures forall u :: u in PostImages(srcs) ==> IsPostImage(u)
    ensures forall s :: multiset(PostImages(srcs))[s] == if IsPostImage(s) then multiset(srcs)[s] else 0
  {
    PostImagesSubsequence(srcs);
    PostImagesCount(srcs);
    forall u | u in PostImages(srcs) ensures IsPostImage(u) {
      assert multiset(PostImages(srcs))[u] > 0;
    }
  }

  /** The kept addresses keep the order of the sources and are no more of them. */
  lemma {:induction false} PostImagesSubsequence(srcs: seq<string>)
    ensures IsSubsequence(PostImages(srcs), srcs)
    ensures |PostImages(srcs)| <= |srcs|
  {
    if srcs != [] {
      var init, last := srcs[..|srcs| - 1], srcs[|srcs| - 1];
      PostImagesSubsequence(init);
      var r := PostImages(srcs);
      if IsPostImage(last) {
        assert r == PostImages(init) + [last];
        assert r[..|r| - 1] == PostImages(init);
      } else {
        assert r == PostImages(init);
        if r != [] {
          SubsequenceExtend(r, init, last);
          assert init + [last] == srcs;
        }
      }
    }
  }

  /** Of a CDN image, an inline image, a CDN emoji and an image on another host, only the first is kept. */
  lemma ImageFilterExample()
    ensures PostImages(["https://cdn.fbcdn.net/a.jpg", "data:image/png;base64,xxx",
                        "https://fbcdn.net/emoji.php/x", "https://other.com/b.jpg"])
            == ["https://cdn.fbcdn.net/a.jpg"]
  {
    CdnImageKept();
    InlineAndEmojiDropped();
    OtherHostDropped();
    OnlyFirstKept("https://cdn.fbcdn.net/a.jpg", "data:image/png;base64,xxx",
                  "https://fbcdn.net/emoji.php/x", "https://other.com/b.jpg");
  }

  lemma OnlyFirstKept(a: string, b: string, c: string, d: string)
    requires IsPostImage(a) && !IsPostImage(b) && !IsPostImage(c) && !IsPostImage(d)
    ensures PostImages([a, b, c, d]) == [a]
  {
    assert PostImages([]) == [];
    PostImagesSnoc([], a);
    assert [] + [a] == [a];
    assert PostImages([a]) == [a];
    PostImagesSnoc([a], b);
    assert [a] + [b] == [a, b];
    assert PostImages([a, b]) == [a];
    PostImagesSnoc([a, b], c);
    assert [a, b] + [c] == [a, b, c];
    assert PostImages([a, b, c]) == [a];
    PostImagesSnoc([a, b, c], d);
    assert [a, b, c] + [d] == [a, b, c, d];
  }

  /** One more source adds itself to the kept addresses when it passes the filter, and nothing otherwise. */
  lemma PostImagesSnoc(srcs: seq<string>, src: string)
    ensures PostImages(srcs + [src]) == PostImages(srcs) + if IsPostImage(src) then [src] else []
  {
    assert (srcs + [src])[..|srcs|] == srcs;
  }

  lemma InlineAndEmojiDropped()
    ensures !IsPostImage("data:image/png;base64,xxx")
    ensures !IsPostImage("https://fbcdn.net/emoji.php/x")
  {
    assert "data:image/png;base64,xxx"[0] == 'd';
    assert "emoji.php" <= "https://fbcdn.net/emoji.php/x"[18..];
  }

  lemma OtherHostDropped()
    ensures !IsPostImage("https://other.com/b.jpg")
  {
    MissingCharNotContained("https://other.com/b.jpg", "fbcdn.net", 0);
  }

  lemma CdnImageKept()
    ensures IsPostImage("https://cdn.fbcdn.net/a.jpg")
  {
    var a := "https://cdn.fbcdn.net/a.jpg";
    assert "fbcdn.net" <= a[12..];
    MissingCharNotContained(a, "emoji.php", 1);
    MissingCharNotContained(a, "sticker", 4);
    assert a[0] == 'h';
  }

  /** A string lacking one of the characters of `w` does not contain `w`. */
  lemma MissingCharNotContained(s: string, w: string, j: nat)
    requires j < |w| && forall k :: 0 <= k < |s| ==> s[k] != w[j]
    ensures !Contains(s, w)
  {
    forall i | 0 <= i <= |s| ensures !(w <= s[i..]) {
      assert i + j < |s| ==> s[i..][j] == s[i + j];
    }
  }

  /** A source starting with `http` never starts with `data:image`, so the last test never rejects anything. */
  lemma DataImageTestRedundant(src: string)
    ensures IsPostImage(src) <==>
      StartsWith(src, "http") && Contains(src, "fbcdn.net") && !Contains(src, "emoji.php") && !Contains(src, "sticker")
  {
    if StartsWith(src, "http") {
      assert src[0] == 'h';
    }
  }

  // ---------------------------------------------------------------------
  // Counts: `_extract_number`, `_extract_comment_count`, `_extract_share_count`

  /**
   * The span test of `_extract_number` on lower-cased text: the keyword, its
   * plural and a digit are there, and neither button label is.
   */
  predicate IsCountLabel(text: string, keyword: string) {
    Contains(text, keyword) && Contains(text, keyword + "s") && HasDigit(text)
    && !Contains(text, "commenter") && !Contains(text, "partager")
  }

  /** The singular test adds nothing: the plural contains the singular. */
  lemma CountLabelPluralSuffices(text: string, keyword: string)
    ensures IsCountLabel(text, keyword) <==>
      Contains(text, keyword + "s") && HasDigit(text) && !Contains(text, "commenter") && !Contains(text, "partager")
  {
    if Contains(text, keyword + "s") {
      ContainsPlural(text, keyword);
    }
  }

  /** The text of a span as `_extract_number` tests it: lower-cased, then `&nbsp;` turned into a space. */
  function SpanLabel(text: string): string {
    ReplaceNbsp(Lower(text))
  }

  /** The position of the first span from position `k` on whose text passes the test. */
  function FirstCountLabelFrom(texts: seq<string>, keyword: string, k: nat): (r: Option<nat>)
    requires k <= |texts|
    ensures r.Some? ==> k <= r.value < |texts| && IsCountLabel(SpanLabel(texts[r.value]), keyword)
    ensures r.Some? ==> forall j :: k <= j < r.value ==> !IsCountLabel(SpanLabel(texts[j]), keyword)
    ensures r.None? ==> forall j :: k <= j < |texts| ==> !IsCountLabel(SpanLabel(texts[j]), keyword)
    decreases |texts| - k
  {
    if k == |texts| then None
    else if IsCountLabel(SpanLabel(texts[k]), keyword) then Some(k)
    else FirstCountLabelFrom(texts, keyword, k + 1)
  }

  /** The position of the first span whose text passes the test. */
  function FirstCountLabel(texts: seq<string>, keyword: string): (r: Option<nat>)
    ensures r.Some? ==> r.value < |texts| && IsCountLabel(SpanLabel(texts[r.value]), keyword)
    ensures r.Some? ==> forall j :: 0 <= j < r.value ==> !IsCountLabel(SpanLabel(texts[j]), keyword)
    ensures r.None? ==> forall j :: 0 <= j < |texts| ==> !IsCountLabel(SpanLabel(texts[j]), keyword)
  {
    FirstCountLabelFrom(texts, keyword, 0)
  }

  /** A passing span with none passing before it is the first one. */
  lemma FirstCountLabelAt(texts: seq<string>, keyword: string, i: nat)
    requires i < |texts| && IsCountLabel(SpanLabel(texts[i]), keyword)
    requires forall j :: 0 <= j < i ==> !IsCountLabel(SpanLabel(texts[j]), keyword)
    ensures FirstCountLabel(texts, keyword) == Some(i)
  {
  }

  /** The count `_extract_number` reports. */
  function CountOf(texts: seq<string>, keyword: string): Option<nat> {
    match FirstCountLabel(texts, keyword)
    case None => None
    case Some(i) => ParseNumber(SpanLabel(texts[i]))
  }

  /**
   * `_extract_number`: the number in the first span that passes the test;
   * `None` exactly when no span passes.
   */
  method ExtractNumber(texts: seq<string>, keyword: string) returns (count: Option<nat>)
    ensures count == CountOf(texts, keyword)
    ensures count.Some? <==> exists i :: 0 <= i < |texts| && IsCountLabel(SpanLabel(texts[i]), keyword)
  {
    var i := 0;
    while i < |texts|
      invariant 0 <= i <= |texts|
      invariant forall j :: 0 <= j < i ==> !IsCountLabel(SpanLabel(texts[j]), keyword)
    {
      var text := ReplaceNbsp(Lower(texts[i]));
      if IsCountLabel(text, keyword) {
        FirstCountLabelAt(texts, keyword, i);
        ParseNumberNoneIffNoDigit(text);
        return ParseNumber(text);
      }
      i := i + 1;
    }
    return None;
  }

  /** Spans after the first one that passes the test are never consulted. */
  lemma CountIgnoresLaterSpans(texts: seq<string>, more: seq<string>, keyword: string)
    requires FirstCountLabel(texts, keyword).Some?
    ensures FirstCountLabel(texts + more, keyword) == FirstCountLabel(texts, keyword)
    ensures CountOf(texts + more, keyword) == CountOf(texts, keyword)
  {
    var t := texts + more;
    var i := FirstCountLabel(texts, keyword).value;
    assert forall j :: 0 <= j <= i ==> t[j] == texts[j];
    FirstCountLabelAt(t, keyword, i);
  }

  /** `_extract_comment_count`. */
  method ExtractCommentCount(b: PostBlock) returns (count: Option<nat>)
    ensures count == CountOf(b.spanTexts, "commentaire")
  {
    count := ExtractNumber(b.spanTexts, "commentaire");
  }

  /** `_extract_share_count`. */
  method ExtractShareCount(b: PostBlock) returns (count: Option<nat>)
    ensures count == CountOf(b.spanTexts, "partage")
  {
    count := ExtractNumber(b.spanTexts, "partage");
  }

  // ---------------------------------------------------------------------
  // One post and the whole page: `_parse_single_post`, `parse_all`

  function FieldsOf(b: PostBlock): Fields {
    Fields(PageNameOf(b), TextOf(b), PostImages(Sources(b.imageSources)),
           CountOf(b.spanTexts, "commentaire"), CountOf(b.spanTexts, "partage"))
  }

  /** `_parse_single_post`: every field extracted on its own. */
  method ParseSinglePost(b: PostBlock) returns (f: Fields)
    ensures f == FieldsOf(b)
  {
    var pageName := ExtractPageName(b);
    var images := ExtractImages(b);
    var comments := ExtractCommentCount(b);
    var shares := ExtractShareCount(b);
    f := Fields(pageName, TextOf(b), images, comments, shares);
  }

  /** `PostModel(**parsed_dict)` for the fields of a block. */
  function PostOf(b: PostBlock): PostModel {
    var f := FieldsOf(b);
    NewPost(f.pageName, f.text, Some(f.images), f.comments, f.shares)
  }

  /**
   * The constructor strips what the extractors already stripped: the post
   * holds the extracted author and text as they are, an empty one becoming
   * `None`, and the extracted images.
   */
  lemma PostOfKeepsFields(b: PostBlock)
    ensures PostOf(b).pageName == if Truthy(PageNameOf(b)) then PageNameOf(b) else None
    ensures PostOf(b).text == if Truthy(TextOf(b)) then TextOf(b) else None
    ensures PostOf(b).images == PostImages(Sources(b.imageSources))
  {
    if PageNameOf(b).Some? {
      StripIdempotent(FirstLeaf(b.profileName.value[0]).text);
    }
    if TextOf(b).Some? {
      StripIdempotent(b.message.value);
    }
  }

  /** What one block contributes to the result of `parse_all`. */
  function Kept(b: PostBlock): seq<PostModel> {
    if !b.raises && PostOf(b).IsValid() then [PostOf(b)] else []
  }

  /** The posts `parse_all` returns. */
  function ValidPosts(blocks: seq<PostBlock>): seq<PostModel> {
    Concat(Kept, blocks)
  }

  /**
   * `parse_all`: a block that raises is skipped, every other block is
   * parsed and its post kept when valid, in block order.
   */
  method ParseAll(blocks: seq<PostBlock>) returns (posts: seq<PostModel>)
    ensures posts == ValidPosts(blocks)
    ensures forall p :: p in posts ==> p.IsValid()
  {
    posts := [];
    var i := 0;
    while i < |blocks|
      invariant 0 <= i <= |blocks|
      invariant posts == Concat(Kept, blocks[..i])
      invariant forall p :: p in posts ==> p.IsValid()
    {
      ConcatPrefix(Kept, blocks, i);
      var b := blocks[i];
      if !b.raises {
        var f := ParseSinglePost(b);
        var post := NewPost(f.pageName, f.text, Some(f.images), f.comments, f.shares);
        assert post == PostOf(b);
        if post.IsValid() {
          posts := posts + [post];
        }
      }
      i := i + 1;
    }
    assert blocks[..i] == blocks;
  }

  /** The posts of each block, valid or not, in block order. */
  function AllPosts(blocks: seq<PostBlock>): seq<PostModel> {
    Map(PostOf, blocks)
  }

  /**
   * Blocks are handled independently: the result for a page is the result
   * for its first part followed by the result for the rest.
   */
  lemma ValidPostsAppend(a: seq<PostBlock>, b: seq<PostBlock>)
    ensures ValidPosts(a + b) == ValidPosts(a) + ValidPosts(b)
  {
    ConcatAppend(Kept, a, b);
  }

  /** A block that raises contributes nothing and leaves the other blocks' posts as they are. */
  lemma RaisingBlockSkipped(a: seq<PostBlock>, bad: PostBlock, c: seq<PostBlock>)
    requires bad.raises
    ensures ValidPosts(a + [bad] + c) == ValidPosts(a) + ValidPosts(c)
  {
    ConcatSkip(Kept, a, bad, c);
  }

  /**
   * `parse_all` keeps, in order, exactly the valid posts of the blocks that
   * do not raise.
   */
  lemma ValidPostsIsFilter(blocks: seq<PostBlock>)
    ensures IsSubsequence(ValidPosts(blocks), AllPosts(blocks))
    ensures forall p :: p in ValidPosts(blocks) ==> p.IsValid()
    ensures forall i :: 0 <= i < |blocks| && !blocks[i].raises && PostOf(blocks[i]).IsValid()
                        ==> PostOf(blocks[i]) in ValidPosts(blocks)
  {
    ValidPostsSubsequence(blocks);
    ValidPostsSound(blocks);
    ValidPostsComplete(blocks);
  }

  lemma ValidPostsSubsequence(blocks: seq<PostBlock>)
    ensures IsSubsequence(ValidPosts(blocks), AllPosts(blocks))
  {
    KeptIsPostOrNothing();
    ConcatIsSubsequence(Kept, PostOf, blocks);
  }

  lemma ValidPostsSound(blocks: seq<PostBlock>)
    ensures forall p :: p in ValidPosts(blocks) ==> p.IsValid()
  {
    KeptIsPostOrNothing();
    ConcatSound(Kept, blocks);
    forall p | p in ValidPosts(blocks) ensures p.IsValid() {
      var i :| 0 <= i < |blocks| && Kept(blocks[i]) == [p];
    }
  }

  lemma ValidPostsComplete(blocks: seq<PostBlock>)
    ensures forall i :: 0 <= i < |blocks| && !blocks[i].raises && PostOf(blocks[i]).IsValid()
                        ==> PostOf(blocks[i]) in ValidPosts(blocks)
  {
    ConcatComplete(Kept, blocks);
    forall i | 0 <= i < |blocks| && !blocks[i].raises && PostOf(blocks[i]).IsValid()
      ensures PostOf(blocks[i]) in ValidPosts(blocks)
    {
      assert PostOf(blocks[i]) in Kept(blocks[i]);
    }
  }

  /** Block `b` does not raise and yields the valid post `p`. */
  predicate Yields(b: PostBlock, p: PostModel)
  {
    !b.raises && PostOf(b).IsValid() && PostOf(b) == p
  }

  /** The positions of the blocks that yield `p`. */
  ghost function YieldingIndices(blocks: seq<PostBlock>, p: PostModel): set<nat>
  {
    set i: nat | i < |blocks| && Yields(blocks[i], p)
  }

  /**
   * Nothing is dropped as a duplicate: each post occurs in the result once
   * per block that yields it.
   */
  lemma ValidPostsCount(blocks: seq<PostBlock>, p: PostModel)
    ensures multiset(ValidPosts(blocks))[p] == |YieldingIndices(blocks, p)|
  {
    KeptIsPostOrNothing();
    ConcatCount(Kept, blocks, p);
    forall i | 0 <= i < |blocks|
      ensures Kept(blocks[i]) == [p] <==> Yields(blocks[i], p)
    {
      KeptIsPost(blocks[i], p);
    }
    assert HitIndices(Kept, blocks, p) == YieldingIndices(blocks, p);
  }

  /** A block contributes `[p]` exactly when it yields `p`. */
  lemma KeptIsPost(b: PostBlock, p: PostModel)
    ensures Kept(b) == [p] <==> Yields(b, p)
  {
  }

  /** Each block contributes its own post or nothing. */
  lemma KeptIsPostOrNothing()
    ensures forall b :: Kept(b) == [] || Kept(b) == [PostOf(b)]
    ensures forall b :: |Kept(b)| <= 1
  {
  }
}
