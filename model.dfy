/**
 * `PostModel` (selenium_scraper/model.py): the record one post becomes,
 * normalised once on construction, with its validity gate and the document
 * it is stored as.
 */
module Model {
  import opened Wrappers
  import opened Text

  /** A value inside a stored document: the shapes `to_dict` produces. */
  datatype Value = Null | Str(s: string) | Int(i: int) | StrList(items: seq<string>)

  /** A document of the store: field name to value. */
  type Document = map<string, Value>

  datatype PostModel = PostModel(
    pageName: Option<string>,
    text: Option<string>,
    images: seq<string>,
    comments: Option<int>,
    shares: Option<int>)
  {
    /** `is_valid`: both the author and the text are present and non-empty. */
    predicate IsValid() {
      Truthy(pageName) && Truthy(text)
    }

    /** `to_dict`: the document stored for this post. */
    function ToDict(): (d: Document)
      ensures d.Keys == FieldNames
      ensures d["page_name"] == StrOrNull(pageName) && d["text"] == StrOrNull(text)
      ensures FromDict(d) == Some(this)
    {
      map["page_name" := StrOrNull(pageName), "text" := StrOrNull(text), "images" := StrList(images),
          "comments" := IntOrNull(comments), "shares" := IntOrNull(shares)]
    }
  }

  const FieldNames: set<string> := {"page_name", "text", "images", "comments", "shares"}

  /** Python truthiness of an optional string: present and not `""`. */
  predicate Truthy(s: Option<string>) {
    s.Some? && s.value != ""
  }

  function StrOrNull(s: Option<string>): Value {
    match s
    case Some(v) => Str(v)
    case None => Null
  }

  function IntOrNull(n: Option<int>): Value {
    match n
    case Some(v) => Int(v)
    case None => Null
  }

  function OptStr(v: Value): Option<string>
    requires v.Str? || v.Null?
  {
    if v.Str? then Some(v.s) else None
  }

  function OptInt(v: Value): Option<int>
    requires v.Int? || v.Null?
  {
    if v.Int? then Some(v.i) else None
  }

  /**
   * Reads a post back from a document with the five fields of `to_dict`;
   * `None` when a field is missing or has the wrong shape.
   */
  function FromDict(d: Document): Option<PostModel> {
    if FieldNames <= d.Keys
      && (d["page_name"].Str? || d["page_name"].Null?)
      && (d["text"].Str? || d["text"].Null?)
      && d["images"].StrList?
      && (d["comments"].Int? || d["comments"].Null?)
      && (d["shares"].Int? || d["shares"].Null?)
    then
      Some(PostModel(OptStr(d["page_name"]), OptStr(d["text"]), d["images"].items,
                     OptInt(d["comments"]), OptInt(d["shares"])))
    else None
  }

  /**
   * `PostModel(page_name, text, images, comments, shares)`: a truthy author
   * or text is stored stripped and a falsy one (missing or `""`) as `None`;
   * a missing or empty image list becomes `[]`; the counts are kept as given.
   */
  function NewPost(pageName: Option<string>, text: Option<string>, images: Option<seq<string>>,
                   comments: Option<int>, shares: Option<int>): (p: PostModel)
    ensures p.pageName.Some? <==> Truthy(pageName)
    ensures p.text.Some? <==> Truthy(text)
    ensures Truthy(pageName) ==> p.pageName.value == Strip(pageName.value)
    ensures Truthy(text) ==> p.text.value == Strip(text.value)
    ensures p.images == if images.Some? then images.value else []
    ensures p.comments == comments && p.shares == shares
  {
    PostModel(
      if Truthy(pageName) then Some(Strip(pageName.value)) else None,
      if Truthy(text) then Some(Strip(text.value)) else None,
      if images.Some? && images.value != [] then images.value else [],
      comments,
      shares)
  }

  /**
   * A new post is valid exactly when both the author and the text it is
   * given hold something other than whitespace.
   */
  lemma NewPostValidIff(pageName: Option<string>, text: Option<string>, images: Option<seq<string>>,
                        comments: Option<int>, shares: Option<int>)
    ensures NewPost(pageName, text, images, comments, shares).IsValid()
        <==> pageName.Some? && !AllSpace(pageName.value) && text.Some? && !AllSpace(text.value)
  {
    if pageName.Some? {
      StripEmptyIffAllSpace(pageName.value);
    }
    if text.Some? {
      StripEmptyIffAllSpace(text.value);
    }
  }

  /** A whitespace-only author or text is stored as `""`, not as `None`, and the post is invalid. */
  lemma WhitespaceOnlyIsEmptyNotNone(s: string, other: Option<string>, images: Option<seq<string>>,
                                     comments: Option<int>, shares: Option<int>)
    requires s != [] && AllSpace(s)
    ensures NewPost(Some(s), other, images, comments, shares).pageName == Some("")
    ensures NewPost(other, Some(s), images, comments, shares).text == Some("")
    ensures !NewPost(Some(s), other, images, comments, shares).IsValid()
    ensures !NewPost(other, Some(s), images, comments, shares).IsValid()
  {
    StripEmptyIffAllSpace(s);
  }
}
