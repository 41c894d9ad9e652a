# Symphony ElasticSearch extension: keyword filter and session state

This project models two parts of `lib/class.elasticsearch.php` in Dafny and proves properties of them.

**1. `ElasticSearch::filterKeywords`**, in `keywords.dfy` (module `Keywords`). It is the fixed chain of string rewrites that makes user keywords safe for the Lucene 3.0 query-string parser. Each `preg_replace` and `trim` step is one function, and the whole chain is `Keywords.FilterKeywords`. `strip_tags` is a parameter `stripTags: string -> string`, so every property holds for whatever it returns. The steps, in order:

- Trim `-`, `+` and space from both ends.
- Put one space in front.
- Delete `* ? ~ { } ( ) [ ] ^ !` everywhere.
- Remove `&&` and `||` as non-overlapping pairs, scanning left to right.
- Delete each maximal run of `[A-Za-z0-9_-]` that is followed by `:`, together with that colon.
- Delete each `-` whose original left neighbour is not a space.
- Delete each `+` or `-` that is followed by whitespace, together with that whitespace run.
- Collapse each run of PCRE whitespace into one space.
- Trim again.
- Append a `"` when the number of quotes is odd.
- Apply PHP's default `trim()`.

Worked examples are in `keywords_examples.dfy` (module `KeywordExamples`). Each stage is evaluated in a lemma of its own. The deletion and final stages, which most examples share, are evaluated for all examples at once (`ExamplesDeleted`, `ExamplesFinished`).

**2. The static state of class `ElasticSearch`**, in `search.dfy` (module `Search`). This covers `init`, `flush`, `getAllTypes`, `getTypeByHandle`, the branch logic of `indexEntry`, and the guard of `deleteEntry`.

- The four static fields are fields of the class `Search.ElasticSearch`. Its methods are proved against pure functions:
  - `Connect` is what `init` does when it is not yet connected;
  - `TypeTable` is the table built by the loop over sections;
  - `FieldData` is the data handed to `mapData`;
  - `EntryAction` is the skip, index or delete decision;
  - `SessionTable` is what `getAllTypes` returns from a given table and connection, and the twostate predicate `LoadedFrom` is the state it leaves. `GetTypeByHandle`, `DeleteEntry` and `IndexEntry` are stated through both, because each goes through `getAllTypes`.
- An `Environment` value stands for everything outside the class:
  - the `elasticsearch` configuration group;
  - whether building or pinging the client throws;
  - which indices exist;
  - the live mapping handles;
  - the sections;
  - the mapping files.
- The mapping class's `mapData` is a function parameter.
- PHP's `empty()` is modelled exactly: both `""` and `"0"` count as empty.

`wrappers.dfy` holds the `Option`, `Result` and `Outcome` datatypes.

### Behaviour worth knowing (the model follows the code)

- **The filter is not idempotent.** `&-&` gives `&&`, and `&&` gives the empty string (`KeywordExamples.ExampleNotIdempotent`).
- **The output can still contain `&&`, `||` or a field prefix.** Later deletions can create them again: `a+ :b` gives `a:b` (`KeywordExamples.ExampleJoinedField`).
- **The operator step deletes the operator as well as the whitespace.** The comment at line 284 says only the spaces go; the regular expression `([+-])\s+` replaces its whole match.
- **A section gets a descriptor as soon as its `.json` mapping file exists** (line 124). The model assumes the `.php` file and its class exist as well. Without them, `require_once` and `new $classname` (lines 126-128) end the script, and no descriptor is made.
- **`getTypeByHandle` never reads the table directly.** Its `in_array($handle, self::$types)` (line 97) compares the handle with the stored descriptor objects, not with the keys. So every lookup goes through `getAllTypes`, and a missing handle gives NULL.

## Model

| member | source | states |
|---|---|---|
| Keywords.Trim | lib/class.elasticsearch.php:263 | `trim($s, '-+ ')`: the result is a slice of the input. Neither end of the result is in the trimmed set. The input comes back unchanged exactly when it is empty or neither of its ends is in the set |
| Keywords.TrimSlice | lib/class.elasticsearch.php:263 | The trimmed string is `s[i..j]`, and everything cut off before `i` and after `j` is in the trimmed set |
| Keywords.TrimCount | lib/class.elasticsearch.php:263 | Trimming never adds a character, and never removes one outside the trimmed set |
| Keywords.DeleteChars | lib/class.elasticsearch.php:267-275 | After deleting a character class, none of its characters remains. A first character outside the class is kept |
| Keywords.DeleteCharsCount | lib/class.elasticsearch.php:267-275 | A deleted character's count becomes 0. Every other character's count is unchanged |
| Keywords.DeleteCharsFixed | lib/class.elasticsearch.php:267-275 | Deletion leaves a string unchanged exactly when it holds none of the deleted characters |
| Keywords.RemovePairs | lib/class.elasticsearch.php:276-279 | Removing `&&` (or `\|\|`) pairs keeps a first character that is not the paired one, and never lengthens the string. Its partners `RemovePairsShape`, `RemovePairsFixed` and `RemovePairsCount` state the rest |
| Keywords.RemovePairsShape | lib/class.elasticsearch.php:276-279 | After removing `&&` (or `\|\|`) pairs left to right, no two of that character are adjacent |
| Keywords.RemovePairsFixed | lib/class.elasticsearch.php:276-279 | Pair removal leaves a string unchanged exactly when no two of that character are adjacent |
| Keywords.RemovePairsCount | lib/class.elasticsearch.php:276-279 | Pair removal changes no other character's count and never adds the paired character |
| Keywords.FieldRun | lib/class.elasticsearch.php:281 | The length of the maximal run of `[A-Za-z0-9_-]` at the front |
| Keywords.RemoveFieldPrefixes | lib/class.elasticsearch.php:280-281 | Field-prefix removal keeps a first character that is not a field character, and never lengthens the string. Its partners `RemoveFieldPrefixesShape`, `RemoveFieldPrefixesFixed` and `RemoveFieldPrefixesCount` state the rest |
| Keywords.RemoveFieldPrefixesShape | lib/class.elasticsearch.php:280-281 | After removing field prefixes, no field character is directly followed by `:` |
| Keywords.RemoveFieldPrefixesFixed | lib/class.elasticsearch.php:280-281 | Field-prefix removal leaves a string unchanged exactly when no field character is followed by `:` |
| Keywords.RemoveFieldPrefixesCount | lib/class.elasticsearch.php:280-281 | Field-prefix removal never adds a character. It removes only field characters and `:` |
| Keywords.DropHyphensAfter | lib/class.elasticsearch.php:282-283 | The hyphen filter, given whether the previous character was a space, keeps a first character other than `-` and never lengthens the string. Its partners `DropHyphensShape`, `DropHyphensFixed` and `DropHyphensCount` state the rest |
| Keywords.DropUnspacedHyphens | lib/class.elasticsearch.php:282-283 | The hyphen filter on a whole string, where nothing precedes the first character. It keeps a first character other than `-` |
| Keywords.DropHyphensShape | lib/class.elasticsearch.php:282-283 | After the lookbehind filter, every remaining `-` follows a space |
| Keywords.DropHyphensFixed | lib/class.elasticsearch.php:282-283 | The hyphen filter leaves a string unchanged exactly when every `-` in it follows a space |
| Keywords.DropHyphensCount | lib/class.elasticsearch.php:282-283 | The hyphen filter keeps every other character. The `-` left are exactly those preceded by a space in the original, so `a--b` loses both |
| Keywords.SpacedHyphensBound | lib/class.elasticsearch.php:283 | The hyphens kept are at most the hyphens present |
| Keywords.SpaceRun | lib/class.elasticsearch.php:285-287 | The length of the maximal run of PCRE `\s` at the front |
| Keywords.DropOperatorGaps | lib/class.elasticsearch.php:284-285 | Operator-gap removal keeps a first character that is not an operator. It never puts whitespace in front of a string that did not start with it, and never lengthens the string. Its partners `DropOperatorGapsShape`, `DropOperatorGapsFixed` and `DropOperatorGapsCount` state the rest |
| Keywords.DropOperatorGapsShape | lib/class.elasticsearch.php:284-285 | After operator-gap removal, no `+` or `-` is followed by whitespace |
| Keywords.DropOperatorGapsFixed | lib/class.elasticsearch.php:284-285 | Operator-gap removal leaves a string unchanged exactly when no `+` or `-` in it is followed by whitespace |
| Keywords.DropOperatorGapsCount | lib/class.elasticsearch.php:284-285 | Operator-gap removal never adds a character. It removes only operators and whitespace |
| Keywords.CollapseWhitespace | lib/class.elasticsearch.php:286-287 | Whitespace collapse keeps the first character, or turns it into a space if it was whitespace. It never lengthens the string |
| Keywords.CollapseWhitespaceShape | lib/class.elasticsearch.php:286-287 | After collapsing, the only whitespace is the space, and no two spaces are adjacent |
| Keywords.CollapseWhitespaceFixed | lib/class.elasticsearch.php:286-287 | Collapsing leaves a string unchanged exactly when it is already single-spaced |
| Keywords.CollapseKeepsOperatorGapFree | lib/class.elasticsearch.php:285-287 | Collapsing cannot place whitespace after an operator again |
| Keywords.CollapseWhitespaceCount | lib/class.elasticsearch.php:286-287 | Collapsing keeps the count of every non-whitespace character |
| Keywords.BalanceQuotes | lib/class.elasticsearch.php:290-292 | The result has an even number of `"`. It is the input, or the input with one `"` appended, and it is the input exactly when the count was already even |
| Keywords.Prepare | lib/class.elasticsearch.php:263-265 | The prepared string starts with a space |
| Keywords.DeleteSingles | lib/class.elasticsearch.php:266-275 | The five single-character deletions keep a first character that is not a metacharacter. `DeleteSinglesUnchanged` states when nothing is removed, and `DeleteCount` states what is removed for the whole deletion stage |
| Keywords.Delete | lib/class.elasticsearch.php:266-279 | The deletion steps keep a first character that is not a metacharacter, `&` or `\|`, so the leading space survives. `DeleteCount` and `DeleteUnchanged` state the rest |
| Keywords.Rewrite | lib/class.elasticsearch.php:280-287 | The rewrite steps keep a leading space. `RewriteCount`, `RewriteKeeps` and `RewriteShape` state what they add, keep and leave |
| Keywords.Finish | lib/class.elasticsearch.php:288-294 | After the final steps, neither end is a character PHP's default `trim()` strips. `FinishCount`, `FinishKeeps`, `FinishPrepared` and `FinishFront` state the rest |
| Keywords.FilterKeywords | lib/class.elasticsearch.php:259-295 | The whole filter, with `strip_tags` as a parameter. Neither end of its output is a character PHP's default `trim()` strips. The `FilterKeywords*` lemmas below state the output's shape and contents |
| Keywords.PrepareCount | lib/class.elasticsearch.php:263-265 | Preparing adds only the leading space. It removes only `-`, `+` and space |
| Keywords.DeleteCount | lib/class.elasticsearch.php:266-279 | After the deletion steps, no metacharacter remains. `&` and `\|` can only shrink, and every other character is kept |
| Keywords.DeleteUnchanged | lib/class.elasticsearch.php:266-279 | A string without metacharacters, `&` or `\|` passes the deletion steps unchanged |
| Keywords.DeleteSinglesUnchanged | lib/class.elasticsearch.php:266-275 | A string without metacharacters passes the five single-character deletions unchanged |
| Keywords.RewriteCount | lib/class.elasticsearch.php:280-287 | The rewrite steps add no character other than the space |
| Keywords.RewriteKeeps | lib/class.elasticsearch.php:280-287 | The rewrite steps keep the count of every character no step touches |
| Keywords.RewriteShape | lib/class.elasticsearch.php:280-287 | After the rewrite steps, the string is single-spaced and no operator is followed by a space |
| Keywords.FinishCount | lib/class.elasticsearch.php:288-294 | The final steps add no character other than `"`, and leave an even number of `"` |
| Keywords.FinishKeeps | lib/class.elasticsearch.php:288-294 | The final steps keep the count of every character no step touches |
| Keywords.FinishPrepared | lib/class.elasticsearch.php:288-294 | For a non-empty text with balanced quotes whose ends are not trimmed, the final steps undo the leading space and return the text itself |
| Keywords.FinishFront | lib/class.elasticsearch.php:288-294 | On a well-spaced string without NUL, the final steps never leave `-` or `+` in front |
| Keywords.RewrittenCount | lib/class.elasticsearch.php:259-287 | Up to the rewrite steps, no metacharacter remains, and no character other than the space has been added |
| Keywords.FilterKeywordsMetachars | lib/class.elasticsearch.php:259-295 | The output contains none of `* ? ~ { } ( ) [ ] ^ !` |
| Keywords.FilterKeywordsCount | lib/class.elasticsearch.php:259-295 | The output holds no more of any character than the stripped input does, except the space and `"` |
| Keywords.FilterKeywordsKeeps | lib/class.elasticsearch.php:259-295 | Characters that no step touches keep their count in the output |
| Keywords.FilterKeywordsQuotes | lib/class.elasticsearch.php:290-294 | The output has an even number of `"` |
| Keywords.FilterKeywordsSpacing | lib/class.elasticsearch.php:259-295 | The output's only whitespace is single spaces. No operator in it is followed by a space, and it neither starts nor ends with a space |
| Keywords.FilterKeywordsFront | lib/class.elasticsearch.php:259-295 | The output does not start with `-` or `+` when the stripped input has no NUL |
| KeywordExamples.ExampleEmpty | lib/class.elasticsearch.php:259-295 | Empty input gives empty output |
| KeywordExamples.ExampleStars | lib/class.elasticsearch.php:266-267 | `***` gives the empty string |
| KeywordExamples.ExampleField | lib/class.elasticsearch.php:280-281 | `t: a` gives `a` |
| KeywordExamples.ExampleInnerHyphen | lib/class.elasticsearch.php:282-283 | `a-b` gives `ab` |
| KeywordExamples.ExampleNegation | lib/class.elasticsearch.php:282-285 | `a -b` is returned unchanged |
| KeywordExamples.ExampleGap | lib/class.elasticsearch.php:284-285 | `a + b` gives `a b` |
| KeywordExamples.ExampleQuote | lib/class.elasticsearch.php:290-292 | `"a` gives `"a"` |
| KeywordExamples.ExampleAmpersands | lib/class.elasticsearch.php:276-283 | `&-&` gives `&&` |
| KeywordExamples.ExampleDoubleAmpersand | lib/class.elasticsearch.php:276-277 | `&&` gives the empty string |
| KeywordExamples.ExampleNotIdempotent | lib/class.elasticsearch.php:259-295 | Filtering twice can differ from filtering once |
| KeywordExamples.ExampleJoinedField | lib/class.elasticsearch.php:280-285 | `a+ :b` gives `a:b`, so a field prefix can survive |
| Search.Connect | lib/class.elasticsearch.php:32-76 | Each empty argument falls back to its configured value. An empty host throws first and an empty index name second, both before any client is built. When host and index name resolve non-empty but building or pinging the client fails, it throws `ClientFailed` with the message `ElasticSearch client: ` followed by the reason. Basic auth is attached exactly when the resolved username and password are both non-empty, and then carries those two values. The index is the existing one, or the one created when it does not exist |
| Search.FileBase | lib/class.elasticsearch.php:120-121 | A mapping file's name is the handle with every `-` replaced by `_` |
| Search.Describe | lib/class.elasticsearch.php:130-152 | A descriptor holds its section, the file's property names under the section's handle and the file's JSON. Its `type` is the handle exactly when the handle is among the live mappings |
| Search.AddSection | lib/class.elasticsearch.php:118-152 | One pass of the loop: it throws `InvalidMapping(handle)` exactly when the section's mapping file exists but has no `properties` for its handle. Otherwise it adds the handle exactly when the file exists, and leaves other descriptors alone |
| Search.TypeTable | lib/class.elasticsearch.php:117-153 | The table built over the sections in order. Every descriptor is keyed by its section's handle. `TypeTableEntries`, `TypeTableComplete` and `TypeTableFailure` state the rest |
| Search.TypeTableEntries | lib/class.elasticsearch.php:124-152 | Each descriptor is keyed by its section's handle, and its section has a mapping file. It lists the file's property names. Its `type` is the handle exactly when the handle is among the live mappings, and NULL otherwise |
| Search.TypeTableComplete | lib/class.elasticsearch.php:118-153 | Every section with a mapping file gets a descriptor |
| Search.TypeTableFailure | lib/class.elasticsearch.php:130-135 | Building throws exactly when some section's mapping JSON has no `properties` for its handle. The exception's message is `Invalid mapping JSON for ` followed by such a section's handle |
| Search.TypeTableFailureStays | lib/class.elasticsearch.php:135 | An exception in one section ends the build with that exception |
| Search.BuildTypes | lib/class.elasticsearch.php:117-153 | The loop over sections computes `TypeTable`, or throws its exception |
| Search.FieldData | lib/class.elasticsearch.php:204-209 | The data under the last field's element name is the entry's data for that field, and no fields give no data. `FieldDataKeys` and `FieldDataLastWins` state the rest |
| Search.FieldDataKeys | lib/class.elasticsearch.php:204-209 | The data handed to `mapData` has exactly the sections' element names as keys |
| Search.FieldDataLastWins | lib/class.elasticsearch.php:206-209 | The value under an element name is the entry's data for the last field with that name |
| Search.CollectFieldData | lib/class.elasticsearch.php:204-209 | The loop over fields computes `FieldData` |
| Search.Lookup | lib/class.elasticsearch.php:102 | `self::$types[$handle]`: the handle's descriptor when there is one, NULL otherwise |
| Search.EntryAction | lib/class.elasticsearch.php:200-223 | An entry is skipped exactly when it has no descriptor or the descriptor's `type` is falsy (NULL, `""` or `"0"`). It is indexed under its section's handle and id, with `mapData`'s body, exactly when `mapData` returns something truthy. Otherwise it is deleted |
| Search.ElasticSearch.constructor | lib/class.elasticsearch.php:23-26 | The static fields start as NULL, NULL, an empty table and no mappings |
| Search.ElasticSearch.Flush | lib/class.elasticsearch.php:81-86 | `flush` sets client and index to NULL and empties the table and the mappings |
| Search.ElasticSearch.Init | lib/class.elasticsearch.php:28-79 | `init` changes nothing once client and index are set. Otherwise it stores the connection `Connect` gives, or throws and changes nothing |
| Search.ElasticSearch.GetAllTypes | lib/class.elasticsearch.php:105-157 | `getAllTypes` first connects. It returns the stored table unchanged when that is non-empty. Otherwise it stores the live mappings, then builds the table and stores it, unless building throws. The result is `SessionTable` of the old table and connection, and the new state is `LoadedFrom` (client, index, mappings and table in every case) |
| Search.ElasticSearch.GetTypeByHandle | lib/class.elasticsearch.php:96-103 | Every lookup goes through `getAllTypes`, with the same new state. It returns the handle's descriptor in the table `getAllTypes` gives, NULL when the handle has none, or `getAllTypes`'s exception |
| Search.ElasticSearch.DeleteEntry | lib/class.elasticsearch.php:229-251 | `deleteEntry` looks the descriptor up through `getAllTypes`, with the same new state. With no descriptor it does nothing, with one it deletes the entry's document, and it fails exactly when `getAllTypes` throws |
| Search.ElasticSearch.IndexEntry | lib/class.elasticsearch.php:185-227 | `indexEntry` connects, looks the descriptor up through `getAllTypes` and then acts as `EntryAction` says on that table. It fails exactly when `init` or building the table throws, and leaves the state `getAllTypes` leaves |
| Search.LookupTwice | lib/class.elasticsearch.php:101-108 | A second lookup without `flush` reuses the table the first one built, even after the sections or mapping files have changed |

## Left out

- All Elasticsearch traffic is left out: `ping`, `indices()->exists/create/getMapping/refresh`, `index` and `deleteById`.
  - Whether the ping fails, which indices exist and which handles the live mapping holds are inputs in `Environment`.
  - The response of `create()` is stored as the index by line 73. It is modelled by the abstract `IndexHandle.Created`.
- `createType` (lines 159-183) is left out. It only makes Elastica calls and prints debugging output.
- `getIndex` and `getClient` (lines 88-94) are left out. They only read a field.
- The filesystem and dynamic loading are left out: `file_exists`, `require_once`, `file_get_contents`, `json_decode` and `new $classname`.
  - A mapping file is a map from its JSON keys to their property names.
  - A key that is missing stands for a falsy `properties`.
  - An empty `properties` object is truthy in PHP, and counts as present with no names.
- The Symphony `Configuration`, `SectionManager` and `EntryManager` lookups are inputs.
  - `IndexEntry` and `DeleteEntry` take the `Entry` and the `Section` themselves, so the fetch by id at lines 188-198 and 231-241 is not modelled.
- The HTML parsing inside `strip_tags` is left out. It is the parameter `stripTags`.
- PHP strings are byte strings, and the `preg_replace` calls run without the `/u` modifier. The model works on Dafny `char` sequences. Every pattern, character class and trim set in `filterKeywords` is ASCII, so each step treats a byte the same way the model treats a character, and multi-byte UTF-8 sequences pass through unchanged.
- PHP array order is not modelled. The type table is a Dafny `map`, and a later section with the same handle replaces an earlier one, as the PHP assignment does.
- Search.ElasticSearch.DeleteEntry: line 247 calls `deleteById` on `$type->type`, which is a string or NULL (lines 143-144), so the call cannot succeed as written. The model returns the `Deleted` request the code means to send.
- Search.ElasticSearch.IndexEntry: when `mapData` returns something falsy, line 222 calls `deleteEntry`. Its `deleteById` call on the string `$type->type` raises a PHP `Error`, which `catch(Exception $ex)` at line 248 does not catch (and a fatal error in PHP 5). The model returns the `Deleted` request the code means to send, where the code ends the script.
- Search.ElasticSearch.IndexEntry: the refresh after indexing (line 225) is left out.
- Keywords.FilterKeywordsFront: holds only when `strip_tags` leaves no NUL. The final default `trim()` strips NUL and could expose a `-` or `+` in front.
