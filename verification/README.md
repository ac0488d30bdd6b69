# Text pre-processing pipeline, modelled in Dafny

This project models the text-normalisation core of a topic-mapping code base:
the `TextPreprocessing` class (and its website variant `ProcessWebsiteText`)
that turns raw documents and scraped web-page fragments into lists of
lowercased, filtered tokens, together with the small collection helpers of
`utils.py`.

- `text_preprocessing.dfy`, module `TextPreprocessing`: the constructor's
  fixed stop list, the stop-word filter, the Treebank-to-WordNet tag mapping,
  named-entity flattening, lemmatisation dispatch, the website pre-filter and
  join, hyphen rewriting, collocation appending, and the sentence, document
  and website entry points.
- `utils.dfy`, module `Utils`: `flatten_lists`, `unique_elements`, `int2str`
  and `count_co_occurrence`.
- `strings.dfy`, module `Strings`: ASCII lowercasing, `sep.join(parts)` and,
  as its inverse, `s.split(c)`.

The object's state never changes after construction, so it is the value type
`Preprocessor`. The capabilities the code borrows from NLTK, WordNet and
Python's `re` module are function-valued fields of it or parameters. These are
the regular-expression tokenizer, the sentence splitter, the named-entity
chunker, the lemmatizer and the PMI collocation ranking. Every property below
holds for every choice of them. `appends_bigrams` extends the caller's list in
place, so that list is the class `TokenList`, whose `items` field the method
reassigns. `get_continuous_chunks` and `count_co_occurrence` build their
results in loops, so they are methods with loop invariants. Everything else is
a list comprehension or a composition, so it is a function.

Three points of the code's behaviour that are easy to misread:

- The filter (`src/text_preprocessing.py:166-171`) applies its five tests to
  the token as written and lowercases only the tokens it keeps. So `"ABC"` is
  dropped: it has no letter from `a-z`. And `"The"` survives as `"the"` even
  though `"the"` is a stop word.
- Filtering is not idempotent. `RemoveStopWordsNotIdempotent` gives a case,
  and `RemoveStopWordsTwice` states exactly when a second pass changes
  nothing.
- The part-of-speech, entity and lemmatisation stages are not called by
  `tokenize_sentence` (the calls are commented out at lines 40-42). They are
  modelled as standalone stages.

## Model

| member | source | states |
|---|---|---|
| `TextPreprocessing.NewPreprocessor` | src/text_preprocessing.py:12-15 | the stop list holds exactly the English stop words, every punctuation character, the two-character backslash-n marker and "quot"; the punctuation list is Python's, and the lemmatizer, tokenizer, sentence splitter and chunker are the ones given |
| `TextPreprocessing.StopListAdditionsMostlyRedundant` | src/text_preprocessing.py:14-15 | punctuation and the newline marker never change what the filter keeps (the length test drops them anyway); only "quot" adds to the English list |
| `TextPreprocessing.Keep` | src/text_preprocessing.py:166-171 | the five tests on the token as written; a token that passes them is, once lowercased, longer than two characters, free of '<' and digits, holds a letter a-z or '-', and has no upper-case letter |
| `TextPreprocessing.RemoveStopWords` | src/text_preprocessing.py:166-173 | the output is no longer than the input; every output token is longer than two characters, has no '<', no digit, a letter a-z or '-', and no upper-case letter |
| `TextPreprocessing.RemoveStopWordsSingle` | src/text_preprocessing.py:166-171 | one token is kept, lowercased, iff it is not a stop word, has no '<', is longer than 2, has no digit and has a char from a-z or '-', all tested on the token as written; otherwise it is dropped |
| `TextPreprocessing.RemoveStopWordsAppend` | src/text_preprocessing.py:166-173 | filtering a concatenation is the concatenation of the filtered parts, so tokens are judged one at a time and keep their order |
| `TextPreprocessing.RemoveStopWordsMembership` | src/text_preprocessing.py:166-173 | a string is in the output iff it is the lowercase of some input token that passes the tests |
| `TextPreprocessing.RemoveStopWordsDropsCapitals` | src/text_preprocessing.py:171 | "ABC" is dropped whatever the stop list, because the letter test only accepts a-z |
| `TextPreprocessing.RemoveStopWordsKeepsHyphens` | src/text_preprocessing.py:171 | "---" is kept unchanged unless it is a stop word, because '-' counts for the letter test |
| `TextPreprocessing.RemoveStopWordsDropsDigits` | src/text_preprocessing.py:170 | any token containing a decimal digit is dropped |
| `TextPreprocessing.RemoveStopWordsDropsShort` | src/text_preprocessing.py:169 | any token of at most two characters is dropped |
| `TextPreprocessing.RemoveStopWordsFixpoint` | src/text_preprocessing.py:166-171 | a list of lowercase tokens that all pass the tests goes through unchanged |
| `TextPreprocessing.RemoveStopWordsShrinks` | src/text_preprocessing.py:166-171 | if some token fails the tests, the output is strictly shorter than the input |
| `TextPreprocessing.RemoveStopWordsTwice` | src/text_preprocessing.py:166-173 | a second pass returns the first pass's output unchanged iff no token of that output is itself in the stop list |
| `TextPreprocessing.RemoveStopWordsNotIdempotent` | src/text_preprocessing.py:166-171 | with "the" but not "The" in the stop list, ["The"] filters to ["the"] and a second pass gives [] |
| `TextPreprocessing.GetWordnetPos` | src/text_preprocessing.py:143-154 | total; a tag starting with J, V, R or S maps to ADJ, VERB, ADV or ADJ_SAT; any other tag, including the empty one, maps to NOUN |
| `TextPreprocessing.GetWordnetPosFirstChar` | src/text_preprocessing.py:143-154 | two tags with the same first character map to the same constant |
| `TextPreprocessing.GetContinuousChunks` | src/text_preprocessing.py:107-118 | one entry per top-level chunk, in order; a plain tagged word passes through, an entity subtree becomes its leaf words joined with '_' |
| `TextPreprocessing.EntityTextRoundTrip` | src/text_preprocessing.py:112 | an entity's joined text splits on '_' back into exactly its leaf words when none of them holds a '_' |
| `TextPreprocessing.LemmatizeTokens` | src/text_preprocessing.py:130-131 | same length as the input; a tagged pair becomes lemmatize(lower(word), GetWordnetPos(tag)); a joined entity becomes lower(text) |
| `TextPreprocessing.EntitiesNeverLemmatized` | src/text_preprocessing.py:130-131 | the entry of a joined entity does not depend on the lemmatizer at all, and is lowercase |
| `TextPreprocessing.NewYorkStaysOneToken` | src/text_preprocessing.py:107-131 | the entity New York comes out of chunking and lemmatisation as the single token "new_york", for every lemmatizer and tag |
| `TextPreprocessing.DeleteShortSents` | src/text_preprocessing.py:181 | every surviving fragment tokenises to more than two tokens and comes from the input; the output is no longer than the input |
| `TextPreprocessing.DeleteShortSentsAppend` | src/text_preprocessing.py:181 | the pre-filter distributes over concatenation, so fragments are judged one at a time and keep their order |
| `TextPreprocessing.DeleteShortSentsMembership` | src/text_preprocessing.py:181 | a fragment survives iff it is in the input and its tokenisation has more than two tokens |
| `TextPreprocessing.DeleteShortSentsIdempotent` | src/text_preprocessing.py:181 | applying the pre-filter twice equals applying it once |
| `TextPreprocessing.TextAggregator` | src/text_preprocessing.py:177 | no fragment gives "", one fragment gives itself, and n fragments give their total length plus 2(n-1) characters |
| `TextPreprocessing.TextAggregatorAppend` | src/text_preprocessing.py:177 | aggregating two non-empty groups puts exactly one ". " between their texts |
| `TextPreprocessing.ReplaceHyphens` | src/text_preprocessing.py:185 | the token keeps its length, every '-' becomes '_', every other character is unchanged, and no '-' is left |
| `TextPreprocessing.FixUnderscores` | src/text_preprocessing.py:183-185 | the list and each token keep their lengths, every '-' becomes '_', and every other character is unchanged |
| `TextPreprocessing.FixUnderscoresIdempotent` | src/text_preprocessing.py:185 | rewriting twice equals rewriting once |
| `TextPreprocessing.HyphenCompoundToUnderscoreJoin` | src/text_preprocessing.py:185 | a '-'-joined compound becomes the '_'-join of the same parts |
| `TextPreprocessing.SliceEnd` | src/text_preprocessing.py:202 | the end index of the slice `[:n]`: n capped at the length, or counted from the end when n is negative, never below 0 |
| `TextPreprocessing.NBest` | src/text_preprocessing.py:202 | the selected collocations are a prefix of the ranking, of length min(n, ranking length) when n >= 0 |
| `TextPreprocessing.BigramTokens` | src/text_preprocessing.py:202 | one token per pair, in order; token i is the first word of pair i, '_', then the second word |
| `TextPreprocessing.BigramTokenRoundTrip` | src/text_preprocessing.py:202 | a collocation token splits on '_' back into its pair when neither word holds a '_' |
| `TextPreprocessing.WithBigrams` | src/text_preprocessing.py:199-203 | the old tokens stay first and unchanged; exactly min(top_n, ranking length) tokens are appended for top_n >= 0, and all but the last -top_n (none if fewer) for a negative top_n; token i of the appended part is pair i of the ranking joined with '_' |
| `TextPreprocessing.WithBigramsNoPairs` | src/text_preprocessing.py:201-203 | when no pair meets the minimum frequency the tokens come back unaugmented |
| `TextPreprocessing.AppendsBigrams` | src/text_preprocessing.py:187-203 | the caller's list is extended in place with the selected collocations, and the same list is returned |
| `TextPreprocessing.TokenizeSentence` | src/text_preprocessing.py:39-44 | no more tokens than the tokenizer produced, each one longer than two characters, free of '<' and digits, holding a letter a-z or '-', and lowercase (it may still be a stop word) |
| `TextPreprocessing.TokenizeDocument` | src/text_preprocessing.py:27 | one list per sentence of the splitter, in order, with empty lists kept; list i is the filter applied to the tokens of sentence i; every token is clean |
| `TextPreprocessing.TokenizeWebsite` | src/text_preprocessing.py:219 | one list per sentence of the aggregated surviving fragments, every token clean |
| `TextPreprocessing.TokenizeWebsitePrefiltered` | src/text_preprocessing.py:219 | removing short fragments before calling the website entry point changes nothing |
| `TextPreprocessing.TokenizeWebsiteAllShort` | src/text_preprocessing.py:177-219 | when every fragment tokenises to at most two tokens, nothing survives and the page is processed as the empty document |
| `TextPreprocessing.MiddleSurvives` | src/text_preprocessing.py:181 | of three fragments where only the middle one tokenises to more than two tokens, the pre-filter keeps exactly that one |
| `TextPreprocessing.DeleteShortSentsExample` | src/text_preprocessing.py:179-181 | of "ok", "this is fine" and "a b" (1, 3 and 2 tokens), only "this is fine" survives |
| `TextPreprocessing.SingleSurvivor` | src/text_preprocessing.py:177-219 | when exactly one fragment survives the pre-filter, the website pipeline processes that fragment alone as the document |
| `TextPreprocessing.TokenizeWebsiteExample` | src/text_preprocessing.py:179-219 | with the same token counts, the website pipeline on "ok", "this is fine", "a b" equals the document pipeline on "this is fine" |
| `Strings.Lower` | src/text_preprocessing.py:166 | lowercasing keeps the length and leaves no upper-case letter |
| `Strings.LowerChar` | src/text_preprocessing.py:166 | an upper-case ASCII letter becomes the lower-case letter at the same alphabet position; every other character is unchanged |
| `Strings.LowerContents` | src/text_preprocessing.py:166 | character by character: 'A'..'Z' become 'a'..'z' at the same alphabet position, every other character stays, and the length is kept |
| `Strings.Join` | src/text_preprocessing.py:112 | no parts give the empty string; otherwise the result starts with the first part (with `JoinLength`, `JoinAppend` and `SplitJoin` this fixes it) |
| `Strings.LowerJoin` | src/text_preprocessing.py:131 | lowercasing a joined entity lowercases each of its words |
| `Strings.JoinLength` | src/text_preprocessing.py:177 | a join has the parts' total length plus one separator per neighbouring pair |
| `Strings.JoinAppend` | src/text_preprocessing.py:177 | joining two non-empty lists puts one separator between their joins |
| `Strings.SplitJoin` | src/text_preprocessing.py:112 | joining parts free of c with c, then splitting on c, gives back the parts |
| `Strings.JoinSplit` | src/text_preprocessing.py:112 | splitting on c, then joining with c, gives back the string |
| `Strings.JoinEmptyIsFlatten` | src/utils.py:6 | joining with the empty separator is flattening |
| `Utils.FlattenLists` | src/utils.py:4-6 | the result's length is the sum of the inner lengths |
| `Utils.FlattenListsAppend` | src/utils.py:6 | flattening distributes over concatenation of the outer list |
| `Utils.FlattenListsMembership` | src/utils.py:6 | x is in the result iff x is in some inner list |
| `Utils.FlattenListsAt` | src/utils.py:6 | element j of inner list i sits at offset (lengths of lists before i) + j of the result |
| `Utils.UniqueElements` | src/utils.py:21-23 | every input element is in the result, every result element is in the input, and the result has no duplicates |
| `Utils.UniqueElementsSize` | src/utils.py:23 | the result has exactly as many elements as the input has distinct values |
| `Utils.CountCoOccurrence` | src/utils.py:29-43 | the result has exactly the input's keys; each value is the counter of that key's list, whose counts sum to the list's length |
| `Utils.CounterCounts` | src/utils.py:41 | the counter gives each x its number of occurrences in the list |
| `Utils.NatToString` | src/utils.py:27 | a non-empty string of decimal digits without a leading zero |
| `Utils.IntToString` | src/utils.py:25-27 | non-empty; starts with '-' iff the number is negative; all digits otherwise |
| `Utils.IntToStringRoundTrip` | src/utils.py:27 | the text reads back as the same integer |
| `Utils.IntToStringInjective` | src/utils.py:27 | distinct integers give distinct texts |

## Left out

- `create_tokens` (src/text_preprocessing.py:58-83) is the field `createTokens`, with no behaviour assumed. Its patterns depend on Python's `re` engine (case-insensitive matching, Unicode `\w`, the `$-_` character range in the URL alternative). The pre-filter uses it as its length probe in the same way.
- `text2sentences` (src/text_preprocessing.py:46-56) is the field `sentTokenize`. NLTK's sentence splitter is an external heuristic, so its result for the empty document is not fixed either.
- `get_token_pos_tag` (src/text_preprocessing.py:85-95) is NLTK's tagger. It is not modelled; its output is the input of `GetContinuousChunks`.
- `nltk.ne_chunk` is the field `neChunk`, seen through its top-level children. An entity's `leaves` stand for `chunk.leaves()`, the already-flattened leaves of the subtree.
- The WordNet lemmatizer is the field `lemmatize`, with no behaviour assumed.
- The PMI ranking (`BigramCollocationFinder`, `apply_freq_filter`, `nbest`, src/text_preprocessing.py:199-202) is the parameter `scoreNgrams`. Only the `[:n]` cut is modelled. The model does not check that ranked pairs are adjacent pairs of the tokens or meet `min_freq`.
- The contents of NLTK's English stop list are the parameter `englishStopWords`.
- Strings.Lower: only ASCII letters are lowercased. Python's Unicode `lower()` also maps other letters and can change a string's length.
- `fix_underscores` and `appends_bigrams` are declared without `self` and `BigramCollocationFinder` is never imported, so calling them as instance methods (`self.fix_underscores(...)`) fails at run time, and `appends_bigrams` also fails on the missing import however it is called. They are modelled as the free functions they are evidently meant to be.
- Utils.UniqueElements: Python fixes no order for `list(set(values))`, so the contract states no order. The body keeps the last occurrence of each value, only to be deterministic.
- Utils.CountCoOccurrence: a `Counter` is modelled as a multiset, which gives the same count for every element, 0 for absent ones. The `Counter` API beyond counting is not modelled. The key order of the dictionary is not modelled either, because a map has none.
- Utils.IntToString covers integers only. Python's `str` accepts any value.
- `column2list` and `column_merge` (src/utils.py:8-19, 45-59) are thin pandas and numpy wrappers and are not modelled.
- src/data/duedil_api.py is not part of this model. It is an HTTP client with no logic beyond building a URL.
