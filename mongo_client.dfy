/**
 * `MongoDBClient` (storage/mongo_client.py): inserting posts into a
 * collection that carries a unique index on `(text, page_name)`.
 *
 * The collection is the sequence of its documents in insertion order;
 * `count_documents({})` is its length. The unique index rejects a document
 * whose key is already stored; a document that lacks one of the two fields
 * is indexed under `null` for it, as MongoDB does.
 */
module MongoClient {
  import opened Wrappers
  import opened Model

  /** The key of the unique index: the `text` field, then the `page_name` field. */
  datatype Key = Key(text: Value, pageName: Value)

  /** A field as the index sees it: a missing field counts as `null`. */
  function IndexedField(doc: Document, name: string): Value {
    if name in doc then doc[name] else Null
  }

  function KeyOf(doc: Document): Key {
    Key(IndexedField(doc, "text"), IndexedField(doc, "page_name"))
  }

  /** The keys of the stored documents. */
  function KeySet(docs: seq<Document>): set<Key> {
    if docs == [] then {} else KeySet(docs[..|docs| - 1]) + {KeyOf(docs[|docs| - 1])}
  }

  /** What the unique index guarantees: no two stored documents share a key. */
  predicate UniqueKeys(docs: seq<Document>) {
    forall i, j :: 0 <= i < j < |docs| ==> KeyOf(docs[i]) != KeyOf(docs[j])
  }

  /** What `insert_post` may be handed: a post, a plain dictionary, or anything else. */
  datatype InsertArg = Post(post: PostModel) | Dict(doc: Document) | Other

  /**
   * The document `insert_post` sends to the store: `to_dict()` of a post, a
   * dictionary as it is, and nothing for any other value.
   */
  function AsDocument(arg: InsertArg): (r: Option<Document>)
    ensures arg.Post? ==> r == Some(arg.post.ToDict())
    ensures arg.Dict? ==> r == Some(arg.doc)
    ensures arg.Other? <==> r.None?
  {
    match arg
    case Post(p) => Some(p.ToDict())
    case Dict(d) => Some(d)
    case Other => None
  }

  /**
   * The collection after `insert_post(arg)`: unchanged when `arg` is not a
   * document, when the key is already stored (the duplicate error is
   * swallowed), or when the store raises another error (`storeError`);
   * otherwise the document is appended.
   */
  function Inserted(docs: seq<Document>, arg: InsertArg, storeError: bool): seq<Document> {
    match AsDocument(arg)
    case None => docs
    case Some(doc) => if storeError || KeyOf(doc) in KeySet(docs) then docs else docs + [doc]
  }

  /**
   * The collection after inserting `args` in order, the insert at position
   * `k` raising a store error exactly when `k` is in `failing`.
   */
  function InsertedAll(docs: seq<Document>, args: seq<InsertArg>, failing: set<nat>): seq<Document> {
    if args == [] then docs
    else Inserted(InsertedAll(docs, args[..|args| - 1], failing), args[|args| - 1], |args| - 1 in failing)
  }

  /** The keys of the documents among `args`. */
  function ArgKeys(args: seq<InsertArg>): set<Key> {
    if args == [] then {}
    else
      var last := AsDocument(args[|args| - 1]);
      ArgKeys(args[..|args| - 1]) + if last.Some? then {KeyOf(last.value)} else {}
  }

  /**
   * How many of `args` carry a key that is neither in `seen` nor carried by
   * an earlier argument.
   */
  function FreshCount(seen: set<Key>, args: seq<InsertArg>): nat {
    if args == [] then 0
    else
      var init, last := args[..|args| - 1], AsDocument(args[|args| - 1]);
      FreshCount(seen, init) + if last.Some? && KeyOf(last.value) !in seen + ArgKeys(init) then 1 else 0
  }

  // ---------------------------------------------------------------------
  // The client

  class MongoDBClient {
    /** The documents of the `posts` collection, in insertion order. */
    var docs: seq<Document>

    ghost predicate Valid()
      reads this
    {
      UniqueKeys(docs)
    }

    /** A client over a collection that already carries the unique index. */
    constructor(existing: seq<Document>)
      requires UniqueKeys(existing)
      ensures Valid() && docs == existing
    {
      docs := existing;
    }

    /** `count_documents({})`. */
    method CountDocuments() returns (n: nat)
      ensures n == |docs|
    {
      n := |docs|;
    }

    /** `insert_post`. */
    method InsertPost(arg: InsertArg, storeError: bool)
      requires Valid()
      modifies this
      ensures Valid()
      ensures docs == Inserted(old(docs), arg, storeError)
    {
      InsertedKeepsUnique(docs, arg, storeError);
      var doc := AsDocument(arg);
      if doc.None? {
        return;
      }
      if storeError || KeyOf(doc.value) in KeySet(docs) {
        return;
      }
      docs := docs + [doc.value];
    }

    /**
     * `insert_many_posts`: inserts `args` in order and returns how many of
     * the inserts made the collection grow, which is how much it grew; with
     * no store errors that is the number of arguments bringing a key new to
     * the collection and to the batch.
     */
    method InsertManyPosts(args: seq<InsertArg>, failing: set<nat>) returns (inserted: nat)
      requires Valid()
      modifies this
      ensures Valid()
      ensures docs == InsertedAll(old(docs), args, failing)
      ensures inserted == |docs| - |old(docs)|
      ensures failing == {} ==> inserted == FreshCount(KeySet(old(docs)), args)
    {
      inserted := 0;
      var i := 0;
      while i < |args|
        invariant 0 <= i <= |args|
        invariant Valid()
        invariant docs == InsertedAll(old(docs), args[..i], failing)
        invariant inserted == |docs| - |old(docs)|
      {
        assert args[..i + 1][..i] == args[..i];
        InsertedGrowsByAtMostOne(docs, args[i], i in failing);
        var before := CountDocuments();
        InsertPost(args[i], i in failing);
        var after := CountDocuments();
        if after > before {
          inserted := inserted + 1;
        }
        i := i + 1;
      }
      assert args[..i] == args;
      if failing == {} {
        BatchGrowthIsFreshCount(old(docs), args);
      }
    }
  }

  // ---------------------------------------------------------------------
  // One insert

  lemma {:induction false} KeySetMembers(docs: seq<Document>)
    ensures forall k :: k in KeySet(docs) <==> exists i :: 0 <= i < |docs| && KeyOf(docs[i]) == k
  {
    if docs != [] {
      var init := docs[..|docs| - 1];
      KeySetMembers(init);
      forall k | k in KeySet(docs) ensures exists i :: 0 <= i < |docs| && KeyOf(docs[i]) == k {
        if k in KeySet(init) {
          var i :| 0 <= i < |init| && KeyOf(init[i]) == k;
          assert docs[i] == init[i];
        } else {
          assert KeyOf(docs[|docs| - 1]) == k;
        }
      }
      forall k | exists i :: 0 <= i < |docs| && KeyOf(docs[i]) == k ensures k in KeySet(docs) {
        var i :| 0 <= i < |docs| && KeyOf(docs[i]) == k;
        if i < |init| {
          assert init[i] == docs[i];
        }
      }
    }
  }

  /** The unique index is kept by every insert. */
  lemma InsertedKeepsUnique(docs: seq<Document>, arg: InsertArg, storeError: bool)
    requires UniqueKeys(docs)
    ensures UniqueKeys(Inserted(docs, arg, storeError))
  {
    var doc := AsDocument(arg);
    if doc.Some? && !storeError && KeyOf(doc.value) !in KeySet(docs) {
      KeySetMembers(docs);
      var r := docs + [doc.value];
      forall i, j | 0 <= i < j < |r| ensures KeyOf(r[i]) != KeyOf(r[j]) {
        if j == |docs| {
          assert r[i] == docs[i];
        } else {
          assert r[i] == docs[i] && r[j] == docs[j];
        }
      }
    }
  }

  /** An insert keeps every stored document in place and adds at most one. */
  lemma InsertedGrowsByAtMostOne(docs: seq<Document>, arg: InsertArg, storeError: bool)
    ensures docs <= Inserted(docs, arg, storeError)
    ensures |Inserted(docs, arg, storeError)| <= |docs| + 1
  {
  }

  /** A document whose key is not stored yet is appended, exactly as sent. */
  lemma InsertNewKey(docs: seq<Document>, p: PostModel)
    requires KeyOf(p.ToDict()) !in KeySet(docs)
    ensures Inserted(docs, Post(p), false) == docs + [p.ToDict()]
    ensures |Inserted(docs, Post(p), false)| == |docs| + 1
  {
  }

  /** A document whose key is already stored changes nothing, whatever else the store does. */
  lemma InsertDuplicate(docs: seq<Document>, arg: InsertArg, storeError: bool)
    requires AsDocument(arg).Some? && KeyOf(AsDocument(arg).value) in KeySet(docs)
    ensures Inserted(docs, arg, storeError) == docs
  {
  }

  /** A value that is neither a post nor a dictionary changes nothing. */
  lemma InsertNonDocument(docs: seq<Document>, storeError: bool)
    ensures Inserted(docs, Other, storeError) == docs
  {
  }

  /** Inserting the same value a second time adds nothing. */
  lemma InsertIdempotent(docs: seq<Document>, arg: InsertArg, storeError: bool)
    ensures Inserted(Inserted(docs, arg, false), arg, storeError) == Inserted(docs, arg, false)
  {
    var doc := AsDocument(arg);
    if doc.Some? && KeyOf(doc.value) !in KeySet(docs) {
      var r := docs + [doc.value];
      assert r[..|r| - 1] == docs;
      assert KeyOf(doc.value) in KeySet(r);
    }
  }

  // ---------------------------------------------------------------------
  // A batch

  /** The unique index is kept over a whole batch, whatever inserts fail. */
  lemma {:induction false} InsertedAllKeepsUnique(docs: seq<Document>, args: seq<InsertArg>, failing: set<nat>)
    requires UniqueKeys(docs)
    ensures UniqueKeys(InsertedAll(docs, args, failing))
  {
    if args != [] {
      var init := args[..|args| - 1];
      InsertedAllKeepsUnique(docs, init, failing);
      InsertedKeepsUnique(InsertedAll(docs, init, failing), args[|args| - 1], |args| - 1 in failing);
    }
  }

  /** The keys stored after an error-free batch are the keys before and the keys of the batch. */
  lemma {:induction false} InsertedAllKeys(docs: seq<Document>, args: seq<InsertArg>)
    ensures KeySet(InsertedAll(docs, args, {})) == KeySet(docs) + ArgKeys(args)
  {
    if args != [] {
      var init := args[..|args| - 1];
      InsertedAllKeys(docs, init);
      var prev := InsertedAll(docs, init, {});
      var doc := AsDocument(args[|args| - 1]);
      if doc.Some? && KeyOf(doc.value) !in KeySet(prev) {
        var r := prev + [doc.value];
        assert r[..|r| - 1] == prev;
      }
    }
  }

  /** An error-free batch grows the collection by the number of arguments with a fresh key. */
  lemma {:induction false} BatchGrowthIsFreshCount(docs: seq<Document>, args: seq<InsertArg>)
    ensures |InsertedAll(docs, args, {})| == |docs| + FreshCount(KeySet(docs), args)
  {
    if args != [] {
      var init := args[..|args| - 1];
      BatchGrowthIsFreshCount(docs, init);
      InsertedAllKeys(docs, init);
    }
  }

  /** The number of fresh arguments is the number of distinct keys the batch adds. */
  lemma {:induction false} FreshCountIsNewKeys(seen: set<Key>, args: seq<InsertArg>)
    ensures FreshCount(seen, args) == |ArgKeys(args) - seen|
  {
    if args != [] {
      var init := args[..|args| - 1];
      FreshCountIsNewKeys(seen, init);
      var doc := AsDocument(args[|args| - 1]);
      if doc.Some? {
        var k := KeyOf(doc.value);
        assert ArgKeys(args) - seen == (ArgKeys(init) - seen) + ({k} - seen);
        if k !in seen + ArgKeys(init) {
          assert (ArgKeys(init) - seen) !! {k};
        } else {
          assert ArgKeys(args) - seen == ArgKeys(init) - seen;
        }
      }
    }
  }

  /** A collection with unique keys holds as many documents as it has keys. */
  lemma {:induction false} UniqueKeysCount(docs: seq<Document>)
    requires UniqueKeys(docs)
    ensures |KeySet(docs)| == |docs|
  {
    if docs != [] {
      var init := docs[..|docs| - 1];
      assert UniqueKeys(init);
      UniqueKeysCount(init);
      KeySetMembers(init);
      assert KeyOf(docs[|docs| - 1]) !in KeySet(init);
    }
  }

  /**
   * The count `insert_many_posts` reports for an error-free batch is the
   * number of distinct keys of the batch that were not stored before (so a
   * batch of N posts with M already stored and no repeats reports N - M).
   */
  lemma BatchCountIsNewKeys(docs: seq<Document>, args: seq<InsertArg>)
    ensures |InsertedAll(docs, args, {})| - |docs| == |ArgKeys(args) - KeySet(docs)|
  {
    BatchGrowthIsFreshCount(docs, args);
    FreshCountIsNewKeys(KeySet(docs), args);
  }

  /** A batch in which every key is already stored adds nothing, and whatever fails. */
  lemma {:induction false} BatchOfStoredKeys(docs: seq<Document>, args: seq<InsertArg>, failing: set<nat>)
    requires ArgKeys(args) <= KeySet(docs)
    ensures InsertedAll(docs, args, failing) == docs
  {
    if args != [] {
      var init := args[..|args| - 1];
      assert ArgKeys(init) <= ArgKeys(args);
      BatchOfStoredKeys(docs, init, failing);
    }
  }

  /** Running an error-free batch a second time adds nothing, even if some of the second run's inserts fail. */
  lemma BatchRerunAddsNothing(docs: seq<Document>, args: seq<InsertArg>, failing: set<nat>)
    ensures InsertedAll(InsertedAll(docs, args, {}), args, failing) == InsertedAll(docs, args, {})
  {
    InsertedAllKeys(docs, args);
    BatchOfStoredKeys(InsertedAll(docs, args, {}), args, failing);
  }
}
