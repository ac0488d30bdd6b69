/**
 The text-normalisation pipeline: sentence splitting, tokenising, the
 stop-word filter, the (optional) named-entity and lemmatisation stages,
 hyphen rewriting, collocation appending, and the document, sentence and
 website entry points.

 The regular-expression tokenizer, NLTK's sentence splitter, named-entity
 chunker and WordNet lemmatizer, and the PMI collocation ranking are not
 re-derived here: they are function-valued fields of `Preprocessor` (or
 parameters), and everything below is proved for every choice of them.
 */
module TextPreprocessing {
  import opened Strings
  import Utils

  /** WordNet's part-of-speech constants. */
  datatype WordnetPos = Adj | Verb | Noun | Adv | AdjSat

  /** A `(word, tag)` pair produced by part-of-speech tagging. */
  datatype Tagged = Tagged(word: string, tag: string)

  /** One top-level child of the named-entity chunker's tree: a plain tagged word, or an entity subtree. */
  datatype Chunk = Word(token: Tagged) | Entity(kind: string, leaves: seq<Tagged>)

  /** An element of the chunking stage's output: a tagged pair passed through, or an entity joined into one string. */
  datatype NerToken = Pair(token: Tagged) | Joined(text: string)

  /**
   The state of a `TextPreprocessing` object, fixed by its constructor and
   never changed afterwards, together with the external capabilities its
   methods call.
   */
  datatype Preprocessor = Preprocessor(
    lemmatize: (string, WordnetPos) -> string,   // WordNetLemmatizer().lemmatize
    punctuation: seq<string>,
    stopWords: set<string>,
    createTokens: string -> seq<string>,         // the regular-expression tokenizer
    sentTokenize: string -> seq<string>,         // nltk.sent_tokenize
    neChunk: seq<Tagged> -> seq<Chunk>)          // nltk.ne_chunk, top-level children

  /** Python's `string.punctuation`, one string per character. */
  const PUNCTUATION: seq<string> := [
    "!", "\"", "#", "$", "%", "&", "'", "(", ")", "*", "+", ",", "-", ".", "/", ":",
    ";", "<", "=", ">", "?", "@", "[", "\\", "]", "^", "_", "`", "{", "|", "}", "~"]

  /** The two-character text backslash-n, as left behind by scraped pages. */
  const NEWLINE_MARKER: string := "\\n"

  /** The residue of the HTML entity `&quot;`. */
  const QUOT: string := "quot"

  const DIGITS: string := "1234567890"
  const LETTERS_AND_HYPHEN: string := "qwertyuioplkjhgfdaszxcvbnm-"

  /**
   The constructor: the stop list is the English stop words, every
   punctuation character, the newline marker and "quot".
   */
  function NewPreprocessor(
    englishStopWords: seq<string>,
    lemmatize: (string, WordnetPos) -> string,
    createTokens: string -> seq<string>,
    sentTokenize: string -> seq<string>,
    neChunk: seq<Tagged> -> seq<Chunk>): (p: Preprocessor)
    ensures p.punctuation == PUNCTUATION
    ensures p.lemmatize == lemmatize && p.createTokens == createTokens
    ensures p.sentTokenize == sentTokenize && p.neChunk == neChunk
    ensures forall w :: w in p.stopWords <==>
      w in englishStopWords || w in PUNCTUATION || w == NEWLINE_MARKER || w == QUOT
  {
    Preprocessor(lemmatize, PUNCTUATION,
      (set w | w in englishStopWords) + (set w | w in PUNCTUATION) + {NEWLINE_MARKER, QUOT},
      createTokens, sentTokenize, neChunk)
  }

  // ---------------------------------------------------------------------------
  // The stop-word filter (`remove_stop_words`)
  // ---------------------------------------------------------------------------

  /** Some character of t is one of chars (Python's `any(x in t for x in chars)`). */
  predicate HasAnyOf(t: string, chars: string)
  {
    exists i :: 0 <= i < |t| && t[i] in chars
  }

  /**
   The five tests of the filter, on the token as it arrives (before
   lowercasing). A kept token, once lowercased, passes every test but
   possibly the stop-list one.
   */
  predicate Keep(stopWords: set<string>, token: string): (b: bool)
    ensures b ==> Cleaned(Lower(token))
  {
    LowerKeepsChecks(token);
    && token !in stopWords
    && '<' !in token
    && |token| > 2
    && !HasAnyOf(token, DIGITS)
    && HasAnyOf(token, LETTERS_AND_HYPHEN)
  }

  /** What every token leaving the filter looks like. */
  predicate Cleaned(t: string)
  {
    && |t| > 2
    && '<' !in t
    && !HasAnyOf(t, DIGITS)
    && HasAnyOf(t, LETTERS_AND_HYPHEN)
    && IsLower(t)
  }

  /** Lowercasing keeps the length, the '<' test and the digit test, and keeps a lower-case letter or hyphen. */
  lemma LowerKeepsChecks(t: string)
    ensures '<' in Lower(t) <==> '<' in t
    ensures HasAnyOf(Lower(t), DIGITS) <==> HasAnyOf(t, DIGITS)
    ensures HasAnyOf(t, LETTERS_AND_HYPHEN) ==> HasAnyOf(Lower(t), LETTERS_AND_HYPHEN)
  {
    var l := Lower(t);
    if '<' in l {
      var i :| 0 <= i < |l| && l[i] == '<';
      assert l[i] == LowerChar(t[i]);
      LowerCharKeepsChecks(t[i]);
      assert t[i] == '<';
    }
    if '<' in t {
      var i :| 0 <= i < |t| && t[i] == '<';
      assert l[i] == LowerChar(t[i]);
      LowerCharKeepsChecks(t[i]);
      assert l[i] == '<';
    }
    if HasAnyOf(l, DIGITS) {
      var i :| 0 <= i < |l| && l[i] in DIGITS;
      assert l[i] == LowerChar(t[i]);
      LowerCharKeepsChecks(t[i]);
      assert t[i] in DIGITS;
    }
    if HasAnyOf(t, DIGITS) {
      var i :| 0 <= i < |t| && t[i] in DIGITS;
      assert l[i] == LowerChar(t[i]);
      LowerCharKeepsChecks(t[i]);
      assert l[i] in DIGITS;
    }
    if HasAnyOf(t, LETTERS_AND_HYPHEN) {
      var i :| 0 <= i < |t| && t[i] in LETTERS_AND_HYPHEN;
      assert l[i] == LowerChar(t[i]);
      LowerCharKeepsChecks(t[i]);
      assert l[i] in LETTERS_AND_HYPHEN;
    }
  }

  /** Lowercasing one character never creates or removes a '<' or a digit, and keeps a-z and '-'. */
  lemma LowerCharKeepsChecks(c: char)
    ensures LowerChar(c) == '<' <==> c == '<'
    ensures LowerChar(c) in DIGITS <==> c in DIGITS
    ensures c in LETTERS_AND_HYPHEN ==> LowerChar(c) == c
  {
  }

  /**
   `remove_stop_words`: the tokens that pass `Keep`, lowercased, in their
   original order.
   */
  function RemoveStopWords(p: Preprocessor, tokens: seq<string>): (r: seq<string>)
    ensures |r| <= |tokens|
    ensures forall i :: 0 <= i < |r| ==> Cleaned(r[i])
  {
    if tokens == [] then []
    else
      var head := if Keep(p.stopWords, tokens[0]) then [Lower(tokens[0])] else [];
      head + RemoveStopWords(p, tokens[1..])
  }

  /** The filter looks at each token on its own: it distributes over concatenation. */
  lemma {:induction false} RemoveStopWordsAppend(p: Preprocessor, a: seq<string>, b: seq<string>)
    ensures RemoveStopWords(p, a + b) == RemoveStopWords(p, a) + RemoveStopWords(p, b)
  {
    if a == [] {
      assert a + b == b;
    } else {
      var head := if Keep(p.stopWords, a[0]) then [Lower(a[0])] else [];
      assert (a + b)[0] == a[0];
      assert (a + b)[1..] == a[1..] + b;
      assert RemoveStopWords(p, a + b) == head + RemoveStopWords(p, a[1..] + b);
      RemoveStopWordsAppend(p, a[1..], b);
    }
  }

  /**
   A single token is kept, lowercased, iff all five tests pass on the token
   as written; otherwise it is dropped. With RemoveStopWordsAppend this fixes
   the output of every input.
   */
  lemma RemoveStopWordsSingle(p: Preprocessor, t: string)
    ensures RemoveStopWords(p, [t]) ==
      if t !in p.stopWords && '<' !in t && |t| > 2 && !HasAnyOf(t, DIGITS) && HasAnyOf(t, LETTERS_AND_HYPHEN)
      then [Lower(t)] else []
  {
    assert [t][1..] == [];
  }

  /** A string is in the output iff it is the lowercase of some kept input token. */
  lemma {:induction false} RemoveStopWordsMembership(p: Preprocessor, tokens: seq<string>, s: string)
    ensures s in RemoveStopWords(p, tokens) <==>
      exists i :: 0 <= i < |tokens| && Keep(p.stopWords, tokens[i]) && Lower(tokens[i]) == s
  {
    if tokens != [] {
      RemoveStopWordsMembership(p, tokens[1..], s);
      var tail := tokens[1..];
      var head := if Keep(p.stopWords, tokens[0]) then [Lower(tokens[0])] else [];
      assert RemoveStopWords(p, tokens) == head + RemoveStopWords(p, tail);
      if s in head {
        assert Keep(p.stopWords, tokens[0]) && Lower(tokens[0]) == s;
      } else if s in RemoveStopWords(p, tail) {
        var i :| 0 <= i < |tail| && Keep(p.stopWords, tail[i]) && Lower(tail[i]) == s;
        assert tokens[i + 1] == tail[i];
      }
      if exists i :: 0 <= i < |tokens| && Keep(p.stopWords, tokens[i]) && Lower(tokens[i]) == s {
        var i :| 0 <= i < |tokens| && Keep(p.stopWords, tokens[i]) && Lower(tokens[i]) == s;
        if i > 0 {
          assert tail[i - 1] == tokens[i];
        }
      }
    }
  }

  /** An all-capitals word has no letter from a-z, so it is dropped: "ABC" never survives. */
  lemma RemoveStopWordsDropsCapitals(p: Preprocessor)
    ensures RemoveStopWords(p, ["ABC"]) == []
  {
    RemoveStopWordsSingle(p, "ABC");
    assert !HasAnyOf("ABC", LETTERS_AND_HYPHEN);
  }

  /** A run of hyphens counts as "having a letter": "---" survives unless it is a stop word. */
  lemma RemoveStopWordsKeepsHyphens(p: Preprocessor)
    requires "---" !in p.stopWords
    ensures RemoveStopWords(p, ["---"]) == ["---"]
  {
    RemoveStopWordsSingle(p, "---");
    assert "---"[0] in LETTERS_AND_HYPHEN;
    assert !HasAnyOf("---", DIGITS);
    LowerOfLower("---");
  }

  /** Any token containing a decimal digit is dropped, e.g. "abc123". */
  lemma RemoveStopWordsDropsDigits(p: Preprocessor, t: string, k: nat)
    requires k < |t| && '0' <= t[k] <= '9'
    ensures RemoveStopWords(p, [t]) == []
  {
    RemoveStopWordsSingle(p, t);
    assert t[k] in DIGITS;
  }

  /** Any token of at most two characters is dropped, whatever it contains. */
  lemma RemoveStopWordsDropsShort(p: Preprocessor, t: string)
    requires |t| <= 2
    ensures RemoveStopWords(p, [t]) == []
  {
    RemoveStopWordsSingle(p, t);
  }

  /** A list of tokens that each pass the filter and are already lowercase goes through unchanged. */
  lemma {:induction false} RemoveStopWordsFixpoint(p: Preprocessor, tokens: seq<string>)
    requires forall i :: 0 <= i < |tokens| ==> Keep(p.stopWords, tokens[i]) && IsLower(tokens[i])
    ensures RemoveStopWords(p, tokens) == tokens
  {
    if tokens != [] {
      LowerOfLower(tokens[0]);
      RemoveStopWordsFixpoint(p, tokens[1..]);
    }
  }

  /** Some token fails the filter: the output is strictly shorter than the input. */
  lemma RemoveStopWordsShrinks(p: Preprocessor, tokens: seq<string>, k: nat)
    requires k < |tokens| && !Keep(p.stopWords, tokens[k])
    ensures |RemoveStopWords(p, tokens)| < |tokens|
  {
    var t := tokens[k];
    assert tokens == tokens[..k] + ([t] + tokens[k + 1..]);
    RemoveStopWordsAppend(p, tokens[..k], [t] + tokens[k + 1..]);
    RemoveStopWordsAppend(p, [t], tokens[k + 1..]);
    RemoveStopWordsSingle(p, t);
  }

  /**
   A second pass of the filter changes nothing iff no token of the first
   pass's output is itself in the stop list. (The filter tests the token
   before lowercasing, so "The" survives the first pass as "the", which a
   second pass drops: the filter is not idempotent in general.)
   */
  lemma RemoveStopWordsTwice(p: Preprocessor, tokens: seq<string>)
    ensures var once := RemoveStopWords(p, tokens);
      RemoveStopWords(p, once) == once <==> forall i :: 0 <= i < |once| ==> once[i] !in p.stopWords
  {
    var once := RemoveStopWords(p, tokens);
    if forall i :: 0 <= i < |once| ==> once[i] !in p.stopWords {
      RemoveStopWordsFixpoint(p, once);
    } else {
      var k :| 0 <= k < |once| && once[k] in p.stopWords;
      RemoveStopWordsShrinks(p, once, k);
    }
  }

  /** The concrete case: with "the" but not "The" in the stop list, a second pass is not a no-op. */
  lemma RemoveStopWordsNotIdempotent(p: Preprocessor)
    requires "the" in p.stopWords && "The" !in p.stopWords
    ensures RemoveStopWords(p, ["The"]) == ["the"]
    ensures RemoveStopWords(p, RemoveStopWords(p, ["The"])) == []
  {
    var t := "The";
    assert t[1] in LETTERS_AND_HYPHEN;
    assert t[0] !in DIGITS && t[1] !in DIGITS && t[2] !in DIGITS;
    assert Keep(p.stopWords, t);
    var l := Lower(t);
    assert l[0] == 't' && l[1] == 'h' && l[2] == 'e';
    assert l == "the";
    RemoveStopWordsSingle(p, t);
    RemoveStopWordsSingle(p, "the");
  }

  /**
   Every punctuation entry and the newline marker is at most two characters
   long, so the length test already drops them: of the constructor's
   additions to the English list, only "quot" changes what the filter keeps.
   */
  lemma StopListAdditionsMostlyRedundant(
    englishStopWords: seq<string>,
    lemmatize: (string, WordnetPos) -> string,
    createTokens: string -> seq<string>,
    sentTokenize: string -> seq<string>,
    neChunk: seq<Tagged> -> seq<Chunk>,
    t: string)
    ensures var p := NewPreprocessor(englishStopWords, lemmatize, createTokens, sentTokenize, neChunk);
      Keep(p.stopWords, t) <==> Keep((set w | w in englishStopWords) + {QUOT}, t)
  {
    if |t| > 2 {
      assert forall w :: w in PUNCTUATION ==> |w| == 1;
      assert t !in PUNCTUATION && t != NEWLINE_MARKER;
    }
  }

  // ---------------------------------------------------------------------------
  // Part-of-speech mapping, entity chunking, lemmatisation
  // ---------------------------------------------------------------------------

  /** Python's `s.startswith(prefix)`. */
  predicate StartsWith(s: string, prefix: string)
  {
    prefix <= s
  }

  /**
   `get_wordnet_pos`: the first character of a Penn Treebank tag picks the
   WordNet constant; an empty or unrecognised tag gives the noun constant.
   */
  function GetWordnetPos(treebankTag: string): (r: WordnetPos)
    ensures r == Adj <==> |treebankTag| > 0 && treebankTag[0] == 'J'
    ensures r == Verb <==> |treebankTag| > 0 && treebankTag[0] == 'V'
    ensures r == Adv <==> |treebankTag| > 0 && treebankTag[0] == 'R'
    ensures r == AdjSat <==> |treebankTag| > 0 && treebankTag[0] == 'S'
    ensures r == Noun <==> |treebankTag| == 0 || treebankTag[0] !in "JVRS"
  {
    if StartsWith(treebankTag, "J") then Adj
    else if StartsWith(treebankTag, "V") then Verb
    else if StartsWith(treebankTag, "N") then Noun
    else if StartsWith(treebankTag, "R") then Adv
    else if StartsWith(treebankTag, "S") then AdjSat
    else Noun
  }

  /** Only the first character of a tag matters. */
  lemma GetWordnetPosFirstChar(tag1: string, tag2: string)
    requires |tag1| > 0 && |tag2| > 0 && tag1[0] == tag2[0]
    ensures GetWordnetPos(tag1) == GetWordnetPos(tag2)
  {
  }

  /** The words of an entity's leaves, in order. */
  function LeafWords(leaves: seq<Tagged>): (r: seq<string>)
    ensures |r| == |leaves|
  {
    seq(|leaves|, i requires 0 <= i < |leaves| => leaves[i].word)
  }

  /** The output entry for one chunk: an entity becomes its words joined by '_'. */
  function ChunkEntry(chunk: Chunk): NerToken
  {
    match chunk
    case Word(t) => Pair(t)
    case Entity(_, leaves) => Joined(Join("_", LeafWords(leaves)))
  }

  /**
   `get_continuous_chunks`: one output entry per top-level chunk of the
   named-entity tree, in order.
   */
  method GetContinuousChunks(p: Preprocessor, taggedTokens: seq<Tagged>) returns (nerTokens: seq<NerToken>)
    ensures |nerTokens| == |p.neChunk(taggedTokens)|
    ensures forall i :: 0 <= i < |nerTokens| ==> nerTokens[i] == ChunkEntry(p.neChunk(taggedTokens)[i])
  {
    var chunks := p.neChunk(taggedTokens);
    nerTokens := [];
    for i := 0 to |chunks|
      invariant |nerTokens| == i
      invariant forall j :: 0 <= j < i ==> nerTokens[j] == ChunkEntry(chunks[j])
    {
      var chunk := chunks[i];
      match chunk {
        case Entity(_, leaves) =>
          var currentChunk := [Joined(Join("_", LeafWords(leaves)))];
          nerTokens := nerTokens + currentChunk;
        case Word(t) =>
          nerTokens := nerTokens + [Pair(t)];
      }
    }
  }

  /**
   An entity's joined text is one token that still records its words:
   splitting it on '_' gives them back, when none of them holds a '_'.
   */
  lemma EntityTextRoundTrip(kind: string, leaves: seq<Tagged>)
    requires leaves != []
    requires forall i :: 0 <= i < |leaves| ==> '_' !in leaves[i].word
    ensures ChunkEntry(Entity(kind, leaves)).Joined?
    ensures Split('_', ChunkEntry(Entity(kind, leaves)).text) == LeafWords(leaves)
  {
    SplitJoin('_', LeafWords(leaves));
  }

  /**
   `lemmatize_tokens`: a tagged pair is lowercased and lemmatised with the
   WordNet constant of its tag; a joined entity is only lowercased.
   */
  function LemmatizeTokens(p: Preprocessor, taggedTokens: seq<NerToken>): (r: seq<string>)
    ensures |r| == |taggedTokens|
    ensures forall i :: 0 <= i < |r| && taggedTokens[i].Joined? ==> r[i] == Lower(taggedTokens[i].text)
    ensures forall i :: 0 <= i < |r| && taggedTokens[i].Pair? ==>
      r[i] == p.lemmatize(Lower(taggedTokens[i].token.word), GetWordnetPos(taggedTokens[i].token.tag))
  {
    seq(|taggedTokens|, i requires 0 <= i < |taggedTokens| =>
      match taggedTokens[i]
      case Pair(t) => p.lemmatize(Lower(t.word), GetWordnetPos(t.tag))
      case Joined(s) => Lower(s))
  }

  /** Entities are never lemmatised: whatever the lemmatizer, their entries agree and are lowercase. */
  lemma EntitiesNeverLemmatized(p: Preprocessor, q: Preprocessor, taggedTokens: seq<NerToken>, i: nat)
    requires i < |taggedTokens| && taggedTokens[i].Joined?
    ensures LemmatizeTokens(p, taggedTokens)[i] == LemmatizeTokens(q, taggedTokens)[i]
    ensures IsLower(LemmatizeTokens(p, taggedTokens)[i])
  {
  }

  /** The entity New York comes out of chunking and lemmatisation as the single token "new_york". */
  lemma NewYorkStaysOneToken(p: Preprocessor, kind: string, tag1: string, tag2: string)
    ensures LemmatizeTokens(p, [ChunkEntry(Entity(kind, [Tagged("New", tag1), Tagged("York", tag2)]))]) == ["new_york"]
  {
    var words := LeafWords([Tagged("New", tag1), Tagged("York", tag2)]);
    assert words == ["New", "York"];
    assert Join("_", words) == "New_York";
    assert Lower("New_York") == "new_york";
  }

  // ---------------------------------------------------------------------------
  // Website pre-filter and join
  // ---------------------------------------------------------------------------

  /**
   `delete_short_sents`: the fragments whose own tokenisation (before any
   filtering) has more than two tokens, in order.
   */
  function DeleteShortSents(p: Preprocessor, sentences: seq<string>): (r: seq<string>)
    ensures |r| <= |sentences|
    ensures forall i :: 0 <= i < |r| ==> |p.createTokens(r[i])| > 2
    ensures forall i :: 0 <= i < |r| ==> r[i] in sentences
  {
    if sentences == [] then []
    else
      (if |p.createTokens(sentences[0])| > 2 then [sentences[0]] else [])
      + DeleteShortSents(p, sentences[1..])
  }

  /** The pre-filter looks at each fragment on its own: it distributes over concatenation. */
  lemma {:induction false} DeleteShortSentsAppend(p: Preprocessor, a: seq<string>, b: seq<string>)
    ensures DeleteShortSents(p, a + b) == DeleteShortSents(p, a) + DeleteShortSents(p, b)
  {
    if a == [] {
      assert a + b == b;
    } else {
      assert (a + b)[1..] == a[1..] + b;
      DeleteShortSentsAppend(p, a[1..], b);
    }
  }

  /** A fragment survives iff it is in the input and tokenises to more than two tokens. */
  lemma {:induction false} DeleteShortSentsMembership(p: Preprocessor, sentences: seq<string>, s: string)
    ensures s in DeleteShortSents(p, sentences) <==> s in sentences && |p.createTokens(s)| > 2
  {
    if sentences != [] {
      DeleteShortSentsMembership(p, sentences[1..], s);
      assert sentences == [sentences[0]] + sentences[1..];
    }
  }

  /** A list that already passes the pre-filter goes through unchanged, so the pre-filter is idempotent. */
  lemma {:induction false} DeleteShortSentsIdempotent(p: Preprocessor, sentences: seq<string>)
    ensures DeleteShortSents(p, DeleteShortSents(p, sentences)) == DeleteShortSents(p, sentences)
  {
    if sentences != [] {
      var head := if |p.createTokens(sentences[0])| > 2 then [sentences[0]] else [];
      var rest := DeleteShortSents(p, sentences[1..]);
      assert DeleteShortSents(p, sentences) == head + rest;
      DeleteShortSentsAppend(p, head, rest);
      assert DeleteShortSents(p, head) == head by {
        if head != [] {
          assert head[1..] == [];
        }
      }
      DeleteShortSentsIdempotent(p, sentences[1..]);
    }
  }

  /**
   `text_aggregator`: the fragments joined with ". "; no fragment gives the
   empty text and one fragment gives itself.
   */
  function TextAggregator(sentences: seq<string>): (r: string)
    ensures sentences == [] ==> r == ""
    ensures |sentences| == 1 ==> r == sentences[0]
    ensures sentences != [] ==> |r| == Utils.TotalLength(sentences) + 2 * (|sentences| - 1)
  {
    if sentences != [] then JoinLength(". ", sentences); Join(". ", sentences)
    else Join(". ", sentences)
  }

  /** Aggregating two non-empty groups of fragments puts one ". " between their texts. */
  lemma TextAggregatorAppend(a: seq<string>, b: seq<string>)
    requires a != [] && b != []
    ensures TextAggregator(a + b) == TextAggregator(a) + ". " + TextAggregator(b)
  {
    JoinAppend(". ", a, b);
  }

  // ---------------------------------------------------------------------------
  // Hyphen rewriting and collocations
  // ---------------------------------------------------------------------------

  /** `token.replace('-', '_')`. */
  function ReplaceHyphens(token: string): (r: string)
    ensures |r| == |token| && '-' !in r
    ensures forall j :: 0 <= j < |r| && token[j] == '-' ==> r[j] == '_'
    ensures forall j :: 0 <= j < |r| && token[j] != '-' ==> r[j] == token[j]
  {
    seq(|token|, j requires 0 <= j < |token| => if token[j] == '-' then '_' else token[j])
  }

  /**
   `fix_underscores`: every token with each '-' replaced by '_'; the list and
   each token keep their lengths and no other character changes.
   */
  function FixUnderscores(tokens: seq<string>): (r: seq<string>)
    ensures |r| == |tokens|
    ensures forall i :: 0 <= i < |r| ==> |r[i]| == |tokens[i]| && '-' !in r[i]
    ensures forall i, j :: 0 <= i < |r| && 0 <= j < |r[i]| && tokens[i][j] != '-' ==> r[i][j] == tokens[i][j]
    ensures forall i, j :: 0 <= i < |r| && 0 <= j < |r[i]| && tokens[i][j] == '-' ==> r[i][j] == '_'
  {
    seq(|tokens|, i requires 0 <= i < |tokens| => ReplaceHyphens(tokens[i]))
  }

  /** Rewriting hyphens twice is the same as once. */
  lemma FixUnderscoresIdempotent(tokens: seq<string>)
    ensures FixUnderscores(FixUnderscores(tokens)) == FixUnderscores(tokens)
  {
    var once := FixUnderscores(tokens);
    forall i | 0 <= i < |once|
      ensures ReplaceHyphens(once[i]) == once[i]
    {
    }
  }

  /** A hyphenated compound becomes the '_'-join of its parts, the joiner entities and collocations use. */
  lemma {:induction false} HyphenCompoundToUnderscoreJoin(parts: seq<string>)
    requires forall i :: 0 <= i < |parts| ==> '-' !in parts[i]
    ensures ReplaceHyphens(Join("-", parts)) == Join("_", parts)
  {
    if |parts| == 1 {
      assert forall j :: 0 <= j < |parts[0]| ==> parts[0][j] != '-';
    } else if |parts| > 1 {
      HyphenCompoundToUnderscoreJoin(parts[1..]);
      var rest := Join("-", parts[1..]);
      assert Join("-", parts) == parts[0] + "-" + rest;
      assert forall j :: 0 <= j < |parts[0]| ==> parts[0][j] != '-';
    }
  }

  /** Python's `s[:n]` end index: a negative n counts from the end. */
  function SliceEnd(n: int, length: nat): (e: nat)
    ensures e <= length
    ensures n >= 0 ==> e == if n < length then n else length
    ensures n < 0 ==> e == if length + n > 0 then length + n else 0
  {
    if n >= 0 then (if n < length then n else length)
    else if length + n > 0 then length + n else 0
  }

  /** `nbest(score_fn, n)`: the first n entries of the ranking. */
  function NBest(ranked: seq<(string, string)>, n: int): (r: seq<(string, string)>)
    ensures r <= ranked
    ensures n >= 0 ==> |r| == if n < |ranked| then n else |ranked|
  {
    ranked[..SliceEnd(n, |ranked|)]
  }

  /** `'_'.join(pair)` for each pair: the first word, '_', then the second word. */
  function BigramTokens(pairs: seq<(string, string)>): (r: seq<string>)
    ensures |r| == |pairs|
    ensures forall i :: 0 <= i < |pairs| ==> r[i] == pairs[i].0 + "_" + pairs[i].1
  {
    JoinPairs("_", pairs);
    seq(|pairs|, i requires 0 <= i < |pairs| => Join("_", [pairs[i].0, pairs[i].1]))
  }

  /** Joining a pair puts the separator between its two words. */
  lemma JoinPairs(sep: string, pairs: seq<(string, string)>)
    ensures forall i :: 0 <= i < |pairs| ==> Join(sep, [pairs[i].0, pairs[i].1]) == pairs[i].0 + sep + pairs[i].1
  {
    forall i | 0 <= i < |pairs|
      ensures Join(sep, [pairs[i].0, pairs[i].1]) == pairs[i].0 + sep + pairs[i].1
    {
      JoinCons(sep, pairs[i].0, [pairs[i].1]);
    }
  }

  /**
   The value `appends_bigrams` leaves in the caller's list: the old tokens,
   unchanged and first, then the first top_n collocations of the ranking (all
   of them when there are fewer; with a negative top_n, all but the last
   -top_n), in ranking order, each joined with '_'.
   */
  function WithBigrams(tokens: seq<string>, ranked: seq<(string, string)>, topN: int): (r: seq<string>)
    ensures |tokens| <= |r| && r[..|tokens|] == tokens
    ensures topN >= 0 ==> |r| == |tokens| + (if topN < |ranked| then topN else |ranked|)
    ensures topN < 0 ==> |r| == |tokens| + (if |ranked| + topN > 0 then |ranked| + topN else 0)
    ensures forall i :: |tokens| <= i < |r| ==>
      r[i] == ranked[i - |tokens|].0 + "_" + ranked[i - |tokens|].1
  {
    tokens + BigramTokens(NBest(ranked, topN))
  }

  /** Nothing meets the frequency threshold: the tokens come back unaugmented. */
  lemma WithBigramsNoPairs(tokens: seq<string>, topN: int)
    ensures WithBigrams(tokens, [], topN) == tokens
  {
  }

  /** An appended collocation splits back into its pair when neither word has a '_'. */
  lemma BigramTokenRoundTrip(a: string, b: string)
    requires '_' !in a && '_' !in b
    ensures Split('_', BigramTokens([(a, b)])[0]) == [a, b]
  {
    SplitJoin('_', [a, b]);
  }

  /** A Python list the caller owns and `appends_bigrams` extends in place. */
  class TokenList {
    var items: seq<string>

    constructor (items: seq<string>)
      ensures this.items == items
    {
      this.items := items;
    }
  }

  /**
   `appends_bigrams`: ranks the adjacent pairs of the tokens that occur at
   least minFreq times (the PMI ranking is the parameter `scoreNgrams`),
   extends the caller's list with the top_n of them and returns that same list.
   */
  method AppendsBigrams(tokens: TokenList, scoreNgrams: (seq<string>, int) -> seq<(string, string)>,
                        minFreq: int, topN: int) returns (result: TokenList)
    modifies tokens
    ensures result == tokens
    ensures tokens.items == WithBigrams(old(tokens.items), scoreNgrams(old(tokens.items), minFreq), topN)
  {
    var ranked := scoreNgrams(tokens.items, minFreq);
    tokens.items := tokens.items + BigramTokens(NBest(ranked, topN));
    result := tokens;
  }

  // ---------------------------------------------------------------------------
  // Orchestration
  // ---------------------------------------------------------------------------

  /** `tokenize_sentence`: tokenise, then filter. */
  function TokenizeSentence(p: Preprocessor, text: string): (r: seq<string>)
    ensures |r| <= |p.createTokens(text)|
    ensures forall i :: 0 <= i < |r| ==> Cleaned(r[i])
  {
    RemoveStopWords(p, p.createTokens(text))
  }

  /**
   `tokenize_document`: one token list per sentence of the splitter, in the
   splitter's order; a sentence with no surviving token keeps its (empty) place.
   */
  function TokenizeDocument(p: Preprocessor, text: string): (r: seq<seq<string>>)
    ensures |r| == |p.sentTokenize(text)|
    ensures forall i :: 0 <= i < |r| ==> r[i] == RemoveStopWords(p, p.createTokens(p.sentTokenize(text)[i]))
    ensures forall i, j :: 0 <= i < |r| && 0 <= j < |r[i]| ==> Cleaned(r[i][j])
  {
    var sentences := p.sentTokenize(text);
    seq(|sentences|, i requires 0 <= i < |sentences| => TokenizeSentence(p, sentences[i]))
  }

  /**
   `ProcessWebsiteText.tokenize_website`: drop the fragments that tokenise to
   two tokens or fewer, join the rest with ". ", and tokenise the result as a
   document.
   */
  function TokenizeWebsite(p: Preprocessor, textChunks: seq<string>): (r: seq<seq<string>>)
    ensures |r| == |p.sentTokenize(TextAggregator(DeleteShortSents(p, textChunks)))|
    ensures forall i, j :: 0 <= i < |r| && 0 <= j < |r[i]| ==> Cleaned(r[i][j])
  {
    TokenizeDocument(p, TextAggregator(DeleteShortSents(p, textChunks)))
  }

  /** Pre-filtering the fragments before calling the website entry point changes nothing. */
  lemma TokenizeWebsitePrefiltered(p: Preprocessor, textChunks: seq<string>)
    ensures TokenizeWebsite(p, DeleteShortSents(p, textChunks)) == TokenizeWebsite(p, textChunks)
  {
    DeleteShortSentsIdempotent(p, textChunks);
  }

  /** When every fragment is too short, the page is processed as the empty document. */
  lemma {:induction false} TokenizeWebsiteAllShort(p: Preprocessor, textChunks: seq<string>)
    requires forall i :: 0 <= i < |textChunks| ==> |p.createTokens(textChunks[i])| <= 2
    ensures DeleteShortSents(p, textChunks) == []
    ensures TokenizeWebsite(p, textChunks) == TokenizeDocument(p, "")
  {
    if textChunks != [] {
      TokenizeWebsiteAllShort(p, textChunks[1..]);
    }
  }

  /**
   The fragments "ok", "this is fine", "a b": with the tokenizer splitting
   them into 1, 3 and 2 tokens, only "this is fine" survives the pre-filter.
   */
  lemma DeleteShortSentsExample(p: Preprocessor)
    requires |p.createTokens("ok")| <= 2
    requires |p.createTokens("this is fine")| > 2
    requires |p.createTokens("a b")| <= 2
    ensures DeleteShortSents(p, ["ok", "this is fine", "a b"]) == ["this is fine"]
  {
    MiddleSurvives(p, "ok", "this is fine", "a b");
  }

  /** Of three fragments, only the middle one long enough: it alone survives. */
  lemma MiddleSurvives(p: Preprocessor, a: string, b: string, c: string)
    requires |p.createTokens(a)| <= 2 && |p.createTokens(b)| > 2 && |p.createTokens(c)| <= 2
    ensures DeleteShortSents(p, [a, b, c]) == [b]
  {
    assert [c][1..] == [];
    assert DeleteShortSents(p, [c]) == [];
    assert [b, c][1..] == [c];
    assert DeleteShortSents(p, [b, c]) == [b];
    assert [a, b, c][1..] == [b, c];
  }

  /** With the same token counts, "this is fine" is the whole document that is split into sentences. */
  lemma TokenizeWebsiteExample(p: Preprocessor)
    requires |p.createTokens("ok")| <= 2
    requires |p.createTokens("this is fine")| > 2
    requires |p.createTokens("a b")| <= 2
    ensures TokenizeWebsite(p, ["ok", "this is fine", "a b"]) == TokenizeDocument(p, "this is fine")
  {
    DeleteShortSentsExample(p);
    SingleSurvivor(p, ["ok", "this is fine", "a b"], "this is fine");
  }

  /** When exactly one fragment survives the pre-filter, it is the whole document. */
  lemma SingleSurvivor(p: Preprocessor, textChunks: seq<string>, s: string)
    requires DeleteShortSents(p, textChunks) == [s]
    ensures TokenizeWebsite(p, textChunks) == TokenizeDocument(p, s)
  {
    assert TextAggregator([s]) == s;
  }
}
