# fb-scrapper: post extraction and deduplicating storage, in Dafny

This project models the part of the fb-scrapper repository that turns a
Facebook search page into posts and stores them without duplicates.

- **Post extraction** (`FacebookParser` in `selenium_scraper/parser.py`). Each post block
  yields an author (the innermost first span of the `profile_name` div), a text (the
  `message` div), the CDN image addresses, and comment and share counts. A count is read
  from the first span that names it, with abbreviated numbers such as `3,2 K` normalised
  to integers (`_parse_number`). `parse_all` keeps the valid posts in block order and
  skips a block whose extraction raises.
- **The post record** (`PostModel` in `selenium_scraper/model.py`). The constructor strips
  the author and the text and turns empty values into `None`. `is_valid` asks for both
  fields. `to_dict` is the stored document.
- **Deduplicating insertion** (`MongoDBClient` in `storage/mongo_client.py`). The
  collection has a unique index on `(text, page_name)`. `insert_post` appends a document
  whose key is new and silently ignores a duplicate. `insert_many_posts` counts the
  inserts that made the collection grow.

Modules:

- `Wrappers`: `Option`.
- `Text`: the ASCII behaviour of `isdigit`, `isspace`, `lower`, `strip`, `startswith`, `in`
  and `replace("&nbsp;", " ")`.
- `Sequences`: subsequences, and the concatenation of per-element results.
- `NumberParsing`: `_parse_number`.
- `Model`: `PostModel`.
- `Parser`: the other extraction rules and `parse_all`.
- `MongoClient`: the client as a class over the sequence of stored documents.

The HTML is taken as already parsed. A post block is the handful of things the rules
read: the spans of the `profile_name` div as a tree, the text of the `message` div, the
`src` of every `img`, the text of every span, and whether extraction raises. The
collection is the sequence of its documents; `count_documents({})` is its length. A store
error other than a duplicate is a parameter saying that the insert changes nothing.

`InsertManyPosts` returns the counter that `insert_many_posts` only logs
(storage/mongo_client.py:74).

## Model

| member | source | states |
|---|---|---|
| Text.Strip | selenium_scraper/model.py:11-12 | `str.strip()`; its meaning is given by `StripShape`, `StripEmptyIffAllSpace` and `StripIdempotent` below |
| Text.StripShape | selenium_scraper/model.py:11-12 | `strip` returns a contiguous piece of the input, with only whitespace removed on either side, that neither starts nor ends with whitespace |
| Text.StripEmptyIffAllSpace | selenium_scraper/model.py:11-12 | a string strips to `""` exactly when it is all whitespace |
| Text.StripIdempotent | selenium_scraper/model.py:11-12 | stripping twice gives the same result as stripping once |
| Text.TrimStartSpaces | selenium_scraper/parser.py:123 | the `\s*` before a suffix skips exactly the whitespace in front of the first non-space character |
| Text.Lower | selenium_scraper/parser.py:104 | lower-casing keeps the length and maps each character on its own, turning `A`-`Z` into `a`-`z` and leaving every other character as it is |
| Text.LowerKeepsDigits | selenium_scraper/parser.py:108 | lower-casing neither adds nor removes digits, so the digit test gives the same answer before and after |
| Text.ContainsPlural | selenium_scraper/parser.py:108 | text that contains `keyword + "s"` contains `keyword` |
| Text.ReplaceNbsp | selenium_scraper/parser.py:105 | replacing `&nbsp;` never makes the text longer |
| Text.ReplaceNbspPlain | selenium_scraper/parser.py:105 | text without `&` is left as it is by the replacement |
| Text.ReplaceNbspKeepsWords | selenium_scraper/parser.py:105 | any space-free prefix of the replaced text is a prefix of the original text |
| Text.ReplaceNbspRemovesAll | selenium_scraper/parser.py:105 | no `&nbsp;` is left after the replacement, including one that the replacement itself could have formed |
| NumberParsing.DecimalValue | selenium_scraper/parser.py:128 | a run of n digits denotes a number below 10^n |
| NumberParsing.DigitPrefix | selenium_scraper/parser.py:123 | greedy `\d+` consumes the longest run of digits at the head |
| NumberParsing.ReadNumber | selenium_scraper/parser.py:123 | a match that starts on a digit has a non-empty integer part and digit-only parts; `ReadRendered` pins its result: the digits, an optional `.`/`,` fraction and an optional `k`/`m` after optional whitespace, written out and followed by text that cannot extend them, are read back as exactly that number |
| NumberParsing.ReadRendered | selenium_scraper/parser.py:123 | a written-out number followed by text that cannot extend it is read back as exactly that number, and the reading stops right after it |
| NumberParsing.ScaleAt | selenium_scraper/parser.py:123 | the optional `\s*([km])` group: after optional whitespace, `k` gives thousands, `m` millions, and anything else no suffix; `ScaleAtGap` states that whitespace then a suffix letter is read as that suffix |
| NumberParsing.ScaleAtGap | selenium_scraper/parser.py:123 | any run of whitespace followed by `k` or `m` is read as that suffix, whatever follows the letter |
| NumberParsing.Multiplier | selenium_scraper/parser.py:131-134 | `k` multiplies by 1000, `m` by 1000000, and no suffix by 1 |
| NumberParsing.SearchNumber | selenium_scraper/parser.py:123 | every match found is well formed |
| NumberParsing.SearchNoneIffNoDigit | selenium_scraper/parser.py:123-126 | the search finds nothing exactly when the text has no digit |
| NumberParsing.ParseNumberNoneIffNoDigit | selenium_scraper/parser.py:123-126 | `_parse_number` returns `None` exactly when the text has no digit |
| NumberParsing.SearchSkipsDigitFreePrefix | selenium_scraper/parser.py:123 | digit-free text in front of the number does not change the match |
| NumberParsing.SearchAtDigit | selenium_scraper/parser.py:123 | text that starts on a digit is matched from its first character |
| NumberParsing.SearchRendered | selenium_scraper/parser.py:123 | digit-free text, then a number (integer digits, an optional `.`/`,` fraction, an optional `k`/`m` after optional whitespace), then text that cannot extend it, is matched as exactly that number |
| NumberParsing.ParseRendered | selenium_scraper/parser.py:120-138 | `_parse_number` of such text (in any case) is the value of that number |
| NumberParsing.ParseNumberLeftmost | selenium_scraper/parser.py:123 | only the leftmost number counts: a word after it that cannot continue it hides every later number and suffix |
| NumberParsing.ParseNumberCommaThousands | selenium_scraper/parser.py:121 | `"3,2 K commentaires"` gives 3200 |
| NumberParsing.ParseNumberTruncates | selenium_scraper/parser.py:128-138 | `"1.9"` gives 1: the value is truncated, not rounded |
| NumberParsing.ParseNumberMillions | selenium_scraper/parser.py:133-134 | `"1 M vues"` gives 1000000 |
| NumberParsing.ParseNumberIgnoresSign | selenium_scraper/parser.py:123 | `"-5"` gives 5: the pattern has no sign |
| NumberParsing.ParseNumberSuffixInWord | selenium_scraper/parser.py:123 | `"2 mois"` gives 2000000: the suffix letter needs no word boundary after it |
| NumberParsing.ParseNumberNoDigits | selenium_scraper/parser.py:124-126 | text without digits gives `None` |
| NumberParsing.ValueBounds | selenium_scraper/parser.py:128-138 | the value lies between the scaled integer part and the scaled next integer, and equals the scaled integer part when there is no fraction |
| NumberParsing.ParseNumber | selenium_scraper/parser.py:120-141 | `_parse_number`; `ParseNumberNoneIffNoDigit` says when it is `None`, `ParseRendered` what it returns for a rendered number, `ParseNumberLeftmost` which number it reads, and the examples above pin the constants |
| NumberParsing.MatchValue | selenium_scraper/parser.py:128-138 | the count a match denotes; `ValueBounds` places it between the scaled integer part and the scaled next integer |
| NumberParsing.Truncated | selenium_scraper/parser.py:128-138 | `int((whole + part / q) * k)`, computed exactly; `TruncatedBounds` bounds it |
| NumberParsing.TruncatedBounds | selenium_scraper/parser.py:128-138 | for a fraction below one, the truncated value lies between `whole * k` and `(whole + 1) * k` (exclusive), and is `whole * k` when the fraction is zero |
| Model.PostModel.IsValid | selenium_scraper/model.py:17-19 | `is_valid`; `NewPostValidIff` states that a new post is valid exactly when the author and the text it is given both contain non-whitespace, and `WhitespaceOnlyIsEmptyNotNone` that a whitespace-only one makes it invalid |
| Model.PostModel.ToDict | selenium_scraper/model.py:21-29 | the document has exactly the five fields, stores a missing author or text as `null`, and reads back as the same post |
| Model.NewPost | selenium_scraper/model.py:11-15 | an author or text is kept, stripped, exactly when it is present and non-empty; missing or empty images become `[]`; the counts are kept |
| Model.NewPostValidIff | selenium_scraper/model.py:11-19 | a new post is valid exactly when both the author and the text it is given contain something other than whitespace |
| Model.WhitespaceOnlyIsEmptyNotNone | selenium_scraper/model.py:11-19 | a whitespace-only author or text becomes `""`, not `None`, and the post is invalid |
| Parser.FirstLeaf | selenium_scraper/parser.py:55-57 | the descent through first spans ends at a span with no span inside it |
| Parser.FirstLeafIsFirstChildless | selenium_scraper/parser.py:55-57 | the descent stops at the first span on the first-child path that has no inner span |
| Parser.PageNameOf | selenium_scraper/parser.py:53-59 | the author of a block; `ExtractPageName` states that it is `None` exactly when there is no `profile_name` div or it has no span, and otherwise the stripped text of the first leaf (`FirstLeafIsFirstChildless`) |
| Parser.ExtractPageName | selenium_scraper/parser.py:50-62 | the author is the stripped text of the innermost first span; it is `None` exactly when there is no `profile_name` div or the div has no span |
| Parser.TextOf | selenium_scraper/parser.py:64-71 | the text is `None` exactly when there is no `message` div; otherwise it neither starts nor ends with whitespace |
| Parser.Sources | selenium_scraper/parser.py:77-78 | one source per image, in order, with `""` for a missing `src` |
| Parser.ExtractImages | selenium_scraper/parser.py:73-90 | the loop's result is the filtered source list |
| Parser.IsPostImage | selenium_scraper/parser.py:79-85 | the image test; `DataImageTestRedundant` states that its last clause never rejects anything, and the image examples below pin each clause |
| Parser.PostImages | selenium_scraper/parser.py:77-86 | the kept addresses; `PostImagesIsFilter` states that they are exactly the passing sources, in order, with their multiplicities |
| Parser.PostImagesIsFilter | selenium_scraper/parser.py:77-86 | the kept addresses are a subsequence of the sources and each one passes the filter; every address occurs in the result exactly as many times as it occurs among the sources when it passes, and not at all when it does not |
| Parser.PostImagesSubsequence | selenium_scraper/parser.py:77-86 | the kept addresses keep the order of the sources and are no more of them |
| Parser.PostImagesCount | selenium_scraper/parser.py:77-86 | each address is kept as many times as it occurs among the sources when it passes the filter, and never when it does not |
| Parser.ImageFilterExample | selenium_scraper/parser.py:79-86 | of a CDN image, an inline `data:` image, a CDN emoji and an image on another host, only the CDN image is kept |
| Parser.DataImageTestRedundant | selenium_scraper/parser.py:79-85 | the `data:image` test never rejects a source, because the source already starts with `http` |
| Parser.IsCountLabel | selenium_scraper/parser.py:108-109 | the span test; `CountLabelPluralSuffices` states that its singular clause adds nothing to the plural one |
| Parser.SpanLabel | selenium_scraper/parser.py:104-105 | the text the test sees, lower-cased with `&nbsp;` replaced; `ReplaceNbspRemovesAll`, `ReplaceNbspKeepsWords` and `LowerKeepsDigits` state what it keeps and removes |
| Parser.CountLabelPluralSuffices | selenium_scraper/parser.py:108-109 | the singular keyword test adds nothing to the plural one |
| Parser.FirstCountLabelFrom | selenium_scraper/parser.py:103-111 | scanning from a given span on, the position found is the first passing span at or after it; there is none exactly when no span from there on passes |
| Parser.FirstCountLabel | selenium_scraper/parser.py:103-111 | the position found is the first span whose text passes the test; there is none exactly when no span passes |
| Parser.FirstCountLabelAt | selenium_scraper/parser.py:103-111 | a passing span with no passing span before it is the one found |
| Parser.CountOf | selenium_scraper/parser.py:103-111 | the count `_extract_number` reports; `ExtractNumber` states that it is `None` exactly when no span passes, and `CountIgnoresLaterSpans` that later spans do not change it |
| Parser.ExtractNumber | selenium_scraper/parser.py:100-118 | the count is read from the first passing span; it is `None` exactly when no span passes |
| Parser.CountIgnoresLaterSpans | selenium_scraper/parser.py:103-111 | spans after the first passing one are never consulted |
| Parser.ExtractCommentCount | selenium_scraper/parser.py:92-94 | the comment count is the count for the keyword `commentaire` |
| Parser.ExtractShareCount | selenium_scraper/parser.py:96-98 | the share count is the count for the keyword `partage` |
| Parser.ParseSinglePost | selenium_scraper/parser.py:40-48 | each field comes from its own extraction rule |
| Parser.PostOf | selenium_scraper/parser.py:30-31 | the post built from a block's fields; `PostOfKeepsFields` states which fields it keeps as extracted |
| Parser.PostOfKeepsFields | selenium_scraper/parser.py:30-31 | the constructor keeps the extracted author and text as they are, since they are already stripped, with `""` becoming `None`, and keeps the images |
| Parser.ParseAll | selenium_scraper/parser.py:18-38 | the result is, in block order, the valid post of every block that does not raise; every post returned is valid |
| Parser.Kept | selenium_scraper/parser.py:29-35 | what one block contributes; `KeptIsPostOrNothing` and `KeptIsPost` state that it is the block's post exactly when the block does not raise and the post is valid, and nothing otherwise |
| Parser.ValidPosts | selenium_scraper/parser.py:27-38 | the posts `parse_all` returns; `ValidPostsIsFilter` and `ValidPostsCount` state that they are exactly the valid posts of the blocks that do not raise, in order, one per such block |
| Parser.ValidPostsAppend | selenium_scraper/parser.py:27-38 | blocks are handled independently: the result for a page is the result for its first part followed by the result for the rest |
| Parser.RaisingBlockSkipped | selenium_scraper/parser.py:29-37 | a block that raises contributes nothing and leaves the other blocks' posts unchanged |
| Parser.ValidPostsIsFilter | selenium_scraper/parser.py:27-38 | the result is a subsequence of the blocks' posts, every post in it is valid, and the valid post of every block that does not raise is in it |
| Parser.ValidPostsSubsequence | selenium_scraper/parser.py:27-38 | the posts returned keep the order of the blocks they come from |
| Parser.ValidPostsSound | selenium_scraper/parser.py:32-33 | every post returned is valid |
| Parser.ValidPostsComplete | selenium_scraper/parser.py:29-33 | the valid post of every block that does not raise is returned |
| Parser.ValidPostsCount | selenium_scraper/parser.py:27-38 | no post is dropped as a duplicate: each post occurs in the result exactly as many times as there are blocks that do not raise and yield it as a valid post |
| Parser.KeptIsPostOrNothing | selenium_scraper/parser.py:29-35 | each block contributes its own post or nothing |
| Parser.KeptIsPost | selenium_scraper/parser.py:29-35 | a block contributes exactly `[p]` when it does not raise and its post is `p` and valid |
| MongoClient.KeyOf | storage/mongo_client.py:41-44 | the unique index's key, the pair of `text` and `page_name`; `KeySetMembers` states which keys are stored |
| MongoClient.UniqueKeys | storage/mongo_client.py:41-44 | no two stored documents share a key; `InsertedKeepsUnique` and `InsertedAllKeepsUnique` state that inserts keep it, and `UniqueKeysCount` that such a collection holds as many documents as keys |
| MongoClient.Inserted | storage/mongo_client.py:49-63 | the effect of one `insert_post`; `InsertNewKey`, `InsertDuplicate`, `InsertNonDocument`, `InsertIdempotent` and `InsertedGrowsByAtMostOne` state it case by case |
| MongoClient.InsertedAll | storage/mongo_client.py:65-74 | the effect of a batch; `InsertedAllKeys`, `BatchGrowthIsFreshCount`, `BatchCountIsNewKeys`, `BatchOfStoredKeys` and `BatchRerunAddsNothing` state its keys and growth |
| MongoClient.AsDocument | storage/mongo_client.py:50-55 | a post is sent as `to_dict()`, a dictionary as it is, and anything else is not sent |
| MongoClient.MongoDBClient.constructor | storage/mongo_client.py:39-44 | the client starts over a collection whose keys are unique |
| MongoClient.MongoDBClient.CountDocuments | storage/mongo_client.py:69 | `count_documents({})` is the number of stored documents |
| MongoClient.MongoDBClient.InsertPost | storage/mongo_client.py:49-63 | the new collection is the insert of the argument into the old one, and keys stay unique |
| MongoClient.MongoDBClient.InsertManyPosts | storage/mongo_client.py:65-74 | the posts are inserted in order; the counter equals the growth of the collection and, without store errors, the number of posts with a key new to the collection and to the batch |
| MongoClient.InsertedKeepsUnique | storage/mongo_client.py:57-63 | an insert never stores a second document with the same key |
| MongoClient.InsertedGrowsByAtMostOne | storage/mongo_client.py:57-63 | an insert keeps every stored document in place and adds at most one |
| MongoClient.InsertNewKey | storage/mongo_client.py:50-59 | a post whose key is not stored is appended as exactly its `to_dict()` |
| MongoClient.InsertDuplicate | storage/mongo_client.py:60-61 | a document whose key is stored changes nothing |
| MongoClient.InsertNonDocument | storage/mongo_client.py:53-55 | a value that is neither a post nor a dictionary changes nothing |
| MongoClient.InsertIdempotent | storage/mongo_client.py:57-61 | inserting the same value again adds nothing |
| MongoClient.KeySetMembers | storage/mongo_client.py:41-44 | a key is stored exactly when some stored document has it |
| MongoClient.InsertedAllKeepsUnique | storage/mongo_client.py:41-44 | keys stay unique over a whole batch, whichever inserts fail |
| MongoClient.InsertedAllKeys | storage/mongo_client.py:68-70 | after a batch without errors the stored keys are the old keys plus the batch's keys |
| MongoClient.BatchGrowthIsFreshCount | storage/mongo_client.py:67-73 | a batch without errors grows the collection by the number of posts whose key is absent from the collection and from the earlier posts |
| MongoClient.FreshCountIsNewKeys | storage/mongo_client.py:67-73 | that number is the number of distinct batch keys that are not already stored |
| MongoClient.UniqueKeysCount | storage/mongo_client.py:41-44 | a collection with unique keys holds as many documents as it has keys |
| MongoClient.BatchCountIsNewKeys | storage/mongo_client.py:65-74 | the growth reported for a batch without errors is the number of its distinct keys that were not stored before (N - M for N posts of which M repeat a key) |
| MongoClient.BatchOfStoredKeys | storage/mongo_client.py:68-73 | a batch whose keys are all stored adds nothing, whichever inserts fail |
| MongoClient.BatchRerunAddsNothing | storage/mongo_client.py:68-73 | running a batch a second time adds nothing, so its counter is 0 |

## Left out

- Text: only ASCII text is modelled. The Unicode behaviour of `isdigit`, `\d`, `\s`, `lower` and `strip` is not, and neither is the `"\xa0"` replacement (`parser.py:105`).
- NumberParsing.ParseNumber: the value is computed exactly as `(I * 10^f + F) * scale / 10^f`, truncated, whereas the source computes it in binary floating point. The two can differ in either direction: `"0,99999999999999999"` rounds up to 1 in the source and gives 0 here. Beyond about 16 significant digits they differ by more than one (`"12345678901234567890"` gives 12345678901234567168 in the source). Once the scaled value exceeds about 1.8e308 (about 306 digits with `k`, 303 with `m`), the conversion to an integer fails in the source, and it returns `None`. None of this is modelled.
- HTML parsing with BeautifulSoup (`find`, `find_all`, `get_text`) is not modelled. The model starts from the parsed block. A span's text is taken to be what `get_text` returns for it; for the author that is a single text node stripped as a whole.
- `parse_all`'s handler for a failing `find_all` (`parser.py:20-25`) is not modelled; the list of blocks is an input. The handlers inside the extractors (`parser.py:60-61, 69-71, 87-88, 116-118`) guard failures that do not arise on parsed values. The handler of `_parse_number` (`parser.py:139-141`) does catch the overflow of a huge value; see the NumberParsing.ParseNumber line above. A block whose extraction raises is a flag on the block.
- Logging in every file is left out.
- `scraper.py` (the Selenium page loader), `main.py`, `config/config.py` and `utils/logger.py` are not part of this model.
- MongoClient: `_connect` and `_get_collection` (network and driver setup) are not modelled. A failure of `_ensure_indexes` is not modelled either; the model always has the unique index.
- MongoClient.MongoDBClient.InsertPost: `insert_one` also adds an `_id` field to the dictionary it is given; that side effect and the `_id` values are not modelled.
- MongoClient.Inserted: two refusals by the store are not modelled, and the model appends the document instead. (a) BSON holds only 64-bit integers, so a `comments` or `shares` of 2^63 or more (which `_parse_number` produces for a span reading `99999999999999999999 commentaires`) makes `insert_one` raise `OverflowError`. That is not a `PyMongoError`, so it escapes `insert_post` (`storage/mongo_client.py:57-63`) and ends `insert_many_posts` before its count is logged. In the model, `InsertPost` and `InsertManyPosts` return normally instead, and `InsertManyPosts` returns a count where the source raises. (b) A dictionary that already carries an `_id` that is stored is refused by the built-in unique `_id` index with a `DuplicateKeyError`, which `storage/mongo_client.py:60-61` swallows; the model compares only the `(text, page_name)` key and appends it when that key is new.
- MongoClient.KeyOf: a key is compared as a whole value. MongoDB's multikey indexing of a list stored under `text` or `page_name` is not modelled.
- MongoClient.MongoDBClient.InsertManyPosts: concurrent writers are not modelled. Under them the before/after comparison could count another client's insert.
