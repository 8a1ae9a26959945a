# Preprocessing for a CNN sentence classifier, in Dafny

`preprocessing.py` prepares labelled sentences for a convolutional text
classifier:

- `build_data_cv` reads a file of positive lines and a file of negative lines;
- `clean_str` / `clean_str_sst` normalise each line;
- every line is labelled and given a random cross-validation fold;
- the script counts in how many lines each word occurs;
- `load_bin_vec` loads the pretrained word2vec vectors of the words it saw;
- `add_unknown_words` draws random vectors for the frequent words that have no vector;
- `get_W` lays all vectors out as the rows of an embedding matrix with a word-to-row index.

This project models those five functions as pure Dafny functions, plus one
method for `get_W`, and proves what their callers rely on:

- Modules and files:
  - `Wrappers` (`wrappers.dfy`): `Option` and `Result`.
  - `Dicts` (`dicts.dfy`): Python's insertion-ordered `dict`. A key order is paired with a map.
  - `Fields` (`fields.dfy`): `split()` with no argument, generic over what counts as whitespace.
  - `Clean` (`clean.dfy`): `clean_str` and `clean_str_sst`. Each `re.sub` with a literal pattern is a left-to-right scan.
  - `Clitics` (`clitics.dfy`): the six clitic substitutions of `clean_str` as one left-to-right scan that puts a space in front of every clitic.
  - `Padding` (`padding.dfy`): the one-character substitutions of `clean_str` as one padding map, the words of a cleaned string read off its input, and where its backslashes stand.
  - `CleanExamples` (`clean_examples.dfy`): how `clean_str` splits a sentence with a clitic and repeated `!`, stated for all words.
  - `Corpus` (`corpus.dfy`): the computation of `build_data_cv`. It receives the two files as decoded lines.
  - `Word2Vec` (`word2vec.dfy`): `load_bin_vec` as a parser over the file's bytes, with explicit errors.
  - `Word2VecFormat` (`word2vec_format.dfy`): an encoder for the binary word2vec format, and the round trip through the parser.
  - `Embedding` (`embedding.dfy`): `get_W` and `add_unknown_words`.
  - `AsWritten` (`findings.dfy`): the word-reading loop of `load_bin_vec` exactly as written. See "Findings".
- Randomness is an oracle parameter:
  - `draw(i)` is the generator's raw draw for the fold of the `i`-th line.
  - `draw(j, i)` is component `i` of the `j`-th uniform vector.
- Vector components are abstract (`E`). The loader keeps each payload as its raw `4*k` bytes.

## Model

| member | source | states |
|---|---|---|
| Corpus.BuildDataCv | preprocessing.py:18-66 | Fails exactly when `cv <= 0` and there is at least one line, as `randint(0, cv)` raises. Otherwise: one record per line, positives first; label 1 for positives and 0 for negatives. The text is the processed line, `num_words` is its field count, the fold is in `[0, cv)`. The counter holds exactly the words that occur in some text, each with its document frequency. |
| Corpus.Records | preprocessing.py:27-65 | The record list has one entry per input line, in file order. Each entry has the label, processed text, word count and fold described above. |
| Corpus.MakeDatum | preprocessing.py:41-44 | A record carries the given label, the stripped and cleaned (or lowercased) line, the number of its fields and a fold in `[0, cv)`. |
| Corpus.RandomFold | preprocessing.py:44 | A fold drawn for `cv > 0` lies in `[0, cv)`. |
| Corpus.ProcessLine | preprocessing.py:31-36 | The kept text has no upper-case letter. With `clean_string` it is also single-spaced and within the cleaned alphabet. |
| Corpus.ProcessLineTokens | preprocessing.py:32-36 | Without `clean_string`, the words of the kept text are the words of the input line, each lowercased: stripping and lowercasing move no word boundary. |
| Corpus.AddLine | preprocessing.py:37-39 | Counting one line: its words become keys if they were not, each of them counts once more, and every other word keeps its count. |
| Corpus.Vocabulary | preprocessing.py:37-39 | After `n` lines, every counted word has a count between 1 and `n`. |
| Corpus.VocabularyCounts | preprocessing.py:37-39 | Adding one to each word of `set(line.split())` (`Corpus.TokenSet`), line by line, gives the document frequency: a word is counted iff some line contains it, and its count is the number of lines that do. |
| Corpus.LinesWithSnoc | preprocessing.py:37-39 | Processing one more line adds exactly that line to the lines of each word it contains, and adds one to that word's count. |
| Corpus.CleanedWordCount | preprocessing.py:43 | A cleaned text's `len(text.split())` is its number of spaces plus one, or zero for the empty text. |
| Fields.SplitKeepsContent | preprocessing.py:37 | `split()` loses exactly the whitespace: joining the fields gives the input with its whitespace removed. |
| Fields.Split | preprocessing.py:37 | Every field of `split()` is non-empty and holds no whitespace. |
| Fields.SplitCountSingleSpaced | preprocessing.py:43 | For a text with no whitespace at either end and never two whitespace characters in a row, the field count is the whitespace count plus one, or zero for the empty text. |
| Clean.CleanStr | preprocessing.py:121-139 | The result has no whitespace at either end and no two whitespace characters in a row. It holds only allowed characters, spaces and backslashes (where the backslashes stand is `Padding.CleanStrEscaped`). Unless `TREC` is set, it holds no upper-case letter. |
| Clean.CleanStrKeepsContent | preprocessing.py:126-139 | Deleting spaces and backslashes from the result gives exactly the input's characters from `[A-Za-z0-9(),!?'`]`, in order, lowercased unless `TREC` is set. |
| Clean.CleanStrSst | preprocessing.py:141-147 | The result has no whitespace at either end and no two whitespace characters in a row. It holds only allowed characters and spaces, and no upper-case letter. |
| Clean.CleanStrSstKeepsContent | preprocessing.py:145-147 | Deleting the spaces from the result gives exactly the input's allowed characters, in order, lowercased. |
| Clean.BlankDisallowed | preprocessing.py:126 | Same length as the input; each allowed character is kept and every other character becomes a space. |
| Clean.BlankDisallowedContent | preprocessing.py:126 | Ignoring whitespace and backslashes, blanking leaves exactly the allowed characters of the input. |
| Clean.ReplaceAll | preprocessing.py:127-137 | A literal substitution puts in nothing but characters of the input and of the replacement. What the clitic substitutions do exactly is `Clitics.CliticRules`; what the mark substitutions do is `Padding.ReplaceCharPieces`. |
| Clean.ApplyRules | preprocessing.py:127-137 | After the chain of substitutions, every character comes from the input or from one of the replacements. The whole chain is `Clitics.CliticRules` followed by `Padding.MarkRulesPad`. |
| Padding.ReplaceCharPieces | preprocessing.py:133-137 | A substitution whose pattern is one character is a pointwise map: the result is the concatenation, over the input's characters, of the replacement for each occurrence of the pattern and of the character itself otherwise. |
| Padding.ReplaceCharAppend | preprocessing.py:133-137 | Such a substitution applied to `a + b` is its result on `a` followed by its result on `b`. |
| Padding.ApplyRulesAppend | preprocessing.py:127-137 | Applying a chain of rules `a + b` is applying `a`, then `b` to the result. |
| Clitics.CliticRules | preprocessing.py:127-132 | For every text, the six substitutions for `'s`, `'ve`, `n't`, `'re`, `'d` and `'ll`, applied in order, equal one left-to-right scan (`InsertAt`) that puts a space in front of every place where one of the six begins. No substitution creates or hides an occurrence for a later one. |
| Clitics.InsertChain | preprocessing.py:127-132 | Take rules that each put a space in front of their own pattern. Their patterns must be free of spaces, must not begin strictly inside one another, and no two may begin at the same place. Applying the rules from the `k`-th on, to the text with the first `k` patterns already spaced, gives the text with all of them spaced. |
| Clitics.InsertStep | preprocessing.py:127-132 | One more substitution `re.sub(q, " " + q)`, applied to the text with the earlier patterns spaced, spaces exactly the places where `q` begins. This holds when neither `q` nor an earlier pattern can begin strictly inside an occurrence of `q`, and no earlier pattern can begin where `q` does. |
| Clitics.StartsInsert | preprocessing.py:127-132 | Inserting spaces creates no new occurrence of a pattern without spaces. |
| Padding.MarkRulesChar | preprocessing.py:133-137 | The five mark substitutions, in order, turn `,` into `" , "`, `!` into `" ! "`, and `(`, `)`, `?` into `" \( "`, `" \) "`, `" \? "`; any other character is kept. No later substitution touches what an earlier one put in. |
| Padding.MarkRulesPad | preprocessing.py:133-137 | On any text, the five mark substitutions together equal padding every character on its own (`PadAll`). |
| Padding.SplitSpaced | preprocessing.py:127-138 | Take a text of spaces, word characters ``[A-Za-z0-9'`]`` and marks, and any clitics made of word characters. Space the clitics and pad the marks; `split()` of the result gives the reference tokens `Words`. These are the maximal runs of word characters, cut again in front of every clitic that begins inside a run. Each mark is a token of its own, behind a backslash for `(`, `)`, `?`. |
| Padding.WordsSame | preprocessing.py:126 | Two texts of the same length that differ only where both hold a separator (neither a word character nor a mark) have the same tokens, for any clitics made of word characters. |
| Padding.WordsAgree | preprocessing.py:126 | Blanking the characters outside ``[A-Za-z0-9(),!?'`]`` changes no token. |
| Padding.CleanStrWords | preprocessing.py:121-139 | For every input and either `TREC`, `clean_str(s).split()` is the list of `s`'s tokens. These are the maximal runs of ``[A-Za-z0-9'`]``, each cut again in front of every `'s`, `'ve`, `n't`, `'re`, `'d` or `'ll` that begins inside it (case-sensitively, before lowercasing), and lowercased unless `TREC`. Each `,` and `!` is a field of its own, and each `(`, `)`, `?` is the field `\(`, `\)`, `\?`. |
| Padding.PadEscaped | preprocessing.py:133-137 | Padding a text without backslashes puts every backslash directly in front of `(`, `)` or `?`. |
| Padding.CollapseEscaped | preprocessing.py:138 | Collapsing whitespace keeps every backslash directly in front of its `(`, `)` or `?`. |
| Padding.StripEscaped | preprocessing.py:139 | So does stripping the ends. |
| Padding.LowerEscaped | preprocessing.py:139 | So does lowering. |
| Padding.CleanStrEscaped | preprocessing.py:121-139 | For every input and either `TREC`, every backslash in `clean_str`'s result is directly followed by `(`, `)` or `?`. The input's own backslashes are blanked by line 126. |
| Clean.ReplaceAllContent | preprocessing.py:127-137 | Each padding substitution only adds whitespace and backslashes: ignoring those, the text is unchanged. |
| Clean.ApplyRulesContent | preprocessing.py:127-137 | The same holds for the whole chain of substitutions, applied in order. |
| Clean.CollapseContent | preprocessing.py:138 | Collapsing whitespace runs changes nothing but whitespace. |
| Clean.Collapse | preprocessing.py:138 | After `\s{2,}` is replaced by one space, no two whitespace characters are adjacent. The result is empty iff the input is, and it starts with whitespace iff the input does. Every kept character comes from the input or is a space. |
| Clean.CollapseRun | preprocessing.py:138 | A maximal run of two or more whitespace characters becomes one space; a lone whitespace character stays as it is. |
| Clean.CollapseFields | preprocessing.py:138 | Collapsing whitespace runs keeps the words: `split()` gives the same fields before and after. |
| Clean.Strip | preprocessing.py:139 | The stripped text neither starts nor ends with whitespace. It is a slice of the input, and what is cut off at either end is whitespace only. |
| Clean.StripFields | preprocessing.py:139 | Stripping keeps the words: `split()` gives the same fields before and after. |
| Clean.StripContent | preprocessing.py:139 | Stripping removes only whitespace. |
| Clean.StripKeeps | preprocessing.py:139 | Every character of the stripped text comes from the input. Stripping creates no adjacent whitespace. |
| Clean.Lower | preprocessing.py:139 | Same length as the input; each character is lowercased, one by one. |
| Clean.LowerKeeps | preprocessing.py:139 | Lowercasing keeps a text single-spaced and within the cleaned alphabet, and leaves no upper-case letter. |
| Clean.LowerFieldsAgree | preprocessing.py:139 | Lowercasing keeps the word boundaries: the fields of the lowercased text are the fields of the input, each lowercased. |
| Clean.BlankFields | preprocessing.py:126 | Blanking turns exactly the disallowed characters into separators: the fields of the result are the maximal runs of allowed characters of the input. |
| Clean.CleanStrSstFields | preprocessing.py:141-147 | The words of `clean_str_sst(s)` are the maximal runs of allowed characters of `s`, each lowercased. |
| Clean.CleanStrMatchesSst | preprocessing.py:121-147 | On a text with no apostrophe, comma, `!`, `(`, `)` or `?`, none of the substitutions on lines 127-137 applies, so `clean_str` equals `clean_str_sst` and its words are the runs of allowed characters, lowercased. |
| CleanExamples.CleanStrClitic | preprocessing.py:121-139 | For any three words `w`, `v`, `u` of ASCII letters and digits, `clean_str(w + "'s " + v + " " + u + "!!").split()` is `[w, "'s", v, u, "!", "!"]` with the words lowercased. With `It`, `NOT` and `good` this is `["it", "'s", "not", "good", "!", "!"]` for `"It's NOT good!!"`. |
| Word2Vec.Load | preprocessing.py:83-105 | A first line that is not two integers is `MalformedHeader`. A record count `N <= 0` gives `{}` whatever the vector size, as `range(N)` is then empty. With `N > 0`, a negative size is `NegativeDimension`. On success every key is a vocabulary word with no space or line-feed byte, and every value has `4*k` bytes. There are at most as many entries as declared records and as vocabulary words. |
| Word2Vec.ReadLine | preprocessing.py:89 | `readline()` splits the input into a first line and the rest. The line ends at the first line feed, or takes everything when there is none. |
| Word2Vec.ParseInt | preprocessing.py:90 | `int(field)` succeeds iff the field is an optional sign followed by at least one decimal digit. |
| Word2Vec.ParseHeader | preprocessing.py:90 | The header parses iff it splits into exactly two fields and `int()` accepts both. The pair is then their two values, in order. |
| Word2Vec.ReadLineOf | preprocessing.py:89 | `readline()` on a line without line feed, a line feed and anything behind it returns exactly that line and its line feed, and leaves the rest. |
| Word2Vec.HeaderFirstLine | preprocessing.py:89-90 | The header (`Word2Vec.Header`, the pair `int()` reads off the first `readline()`) is parsed from the first line of the file, whatever the records behind it hold. |
| Word2Vec.ReadToken | preprocessing.py:93-100 | The word read contains no space and no line feed. The bytes consumed are positive and at most the input length. |
| Word2Vec.ReadTokenStopsAtFirstSpace | preprocessing.py:93-100 | The word loop fails iff no space byte remains. Otherwise it consumes up to and including the first space, and the word is everything before that space with the line feeds removed. |
| Word2Vec.KeepStores | preprocessing.py:101-104 | Keeping a record (`Word2Vec.Keep`): a vocabulary word's payload is stored under the word; any other record leaves the dictionary unchanged. |
| Word2Vec.ReadRecords | preprocessing.py:92-104 | With no record left to read the loop consumes nothing and leaves the dictionary as it is; it never consumes more bytes than the input holds. |
| Word2Vec.ReadRecordsShape | preprocessing.py:92-104 | The record loop keeps every existing key. It adds only vocabulary words free of space and line-feed bytes, at most one per record, each with a `4*k`-byte value. |
| Word2Vec.ConsumptionIsSpan | preprocessing.py:92-104 | Whether the record loop succeeds, which error it reports and how many bytes it consumes are given by the layout of the records alone: a word up to its space, then `4*k` payload bytes, `N` times. |
| Word2Vec.ConsumptionIgnoresVocabulary | preprocessing.py:101-104 | A skipped record consumes exactly as many bytes as a kept one. Success, the error reported and the bytes consumed do not depend on the vocabulary or on what was stored before. |
| Word2Vec.StoredValuesAreRecords | preprocessing.py:92-104 | Every entry the loop stores belongs to one of the `N` records it reads. For some record `i < N`, the key is the word read at the start of that record, and the value is the `4*k` bytes right behind the word's space. The record starts where the `i` records before it end. Entries already present and not overwritten are unchanged. |
| Word2VecFormat.DecimalParses | preprocessing.py:90 | `int()` of a number's decimal digits gives the number back. |
| Word2VecFormat.HeaderParses | preprocessing.py:89-90 | The header line `"<N> <k>\n"` parses back to `(N, k)`. |
| Word2VecFormat.ReadTokenWord | preprocessing.py:94-100 | The word loop skips the line feeds that precede a word and reads the word up to its space. |
| Word2VecFormat.LoadEncode | preprocessing.py:83-105 | Round trip: loading an encoded file succeeds, whatever run of line feeds (possibly none) separates the records. The result stores the records whose word is in the vocabulary, in file order. |
| Word2VecFormat.LoadEncodeKeys | preprocessing.py:101-103 | With records separated by any run of line feeds, including none, the keys loaded from an encoded file are exactly the vocabulary words among its records. |
| Word2VecFormat.LoadEncodeLastWins | preprocessing.py:101-102 | With records separated by any run of line feeds, including none: when a vocabulary word occurs in several records, the last record's payload is kept. |
| Embedding.GetW | preprocessing.py:68-81 | Fails with `NegativeDimension` when `k < 0`. Otherwise it succeeds iff every vector is broadcastable to length `k`, and on failure it names the first word, in dictionary order, whose vector is not. On success: one more row than words, each row of length `k`, row 0 all zeros. The index has the same keys in the same order; the `i`-th word (from 1) gets index `i`, and row `i` holds its vector. |
| Embedding.Zeros | preprocessing.py:74-75 | Row 0 of `W` has length `k`, and every component is zero. |
| Embedding.FillRows | preprocessing.py:76-80 | The loop stops at the first word whose vector does not fit, or after the last word. Every word before that point has its vector in the row of its index, the indices count from 1 in dictionary order, and row 0 is zeros. |
| Embedding.Broadcast | preprocessing.py:78 | A vector of length `k` is copied into the row; a vector of length 1 is repeated along it. |
| Dicts.Put | preprocessing.py:102 | `d[k] = v` stores `v` under `k`; an existing key keeps its place in the key order, a new key goes last, and every key stays listed exactly once. |
| Embedding.Uniform | preprocessing.py:119 | The `j`-th random vector has length `k`, and component `i` is the `(j, i)` draw. |
| Embedding.Candidates | preprocessing.py:117-118 | The words that get a new vector are exactly the vocabulary words that have none yet and a count of at least `min_df`. They form a subsequence of the vocabulary, so they keep its order, and they hold no duplicate when the vocabulary holds none. |
| Embedding.AddUnknownWords | preprocessing.py:112-119 | Raises iff `k < 0` and some word needs a vector. On success: old entries unchanged; the new words are appended in vocabulary order. The keys are the old keys plus every word counted at least `min_df` times, and the `j`-th new word gets the `j`-th random vector. |
| Embedding.AddFrom | preprocessing.py:117-119 | The loop keeps the dictionary well formed, and every key it holds afterwards was already there or is one of the words looped over. |
| Embedding.AddFromFails | preprocessing.py:117-119 | The loop raises exactly when a vector is needed and `k` is negative. |
| Embedding.AddFromOrder | preprocessing.py:117-119 | The new words go to the end of the key order, in vocabulary order. |
| Embedding.AddFromKeeps | preprocessing.py:117-119 | Words that already had a vector keep it. |
| Embedding.AddFromDraws | preprocessing.py:119 | The `j`-th new word holds the `j`-th vector drawn. |
| Embedding.AddUnknownWordsIdempotent | preprocessing.py:112-119 | A second run with the same vocabulary adds nothing, whatever its random draws. |
| AsWritten.WordLoopNeverBreaks | preprocessing.py:94-100 | The loop as written, comparing `bytes` with `str`, never reaches its `break`, however long it runs and whatever the file holds. |
| AsWritten.WordLoopMissesSpace | preprocessing.py:96 | On the bytes `a` and space, the corrected reader returns the word `a` after two bytes, while the loop as written never stops. |
| AsWritten.BytesLoopSpinsAtEnd | preprocessing.py:94-100 | Even with byte comparisons, the loop never breaks once no space byte is left, because `read(1)` keeps returning `b''`. |
| AsWritten.BytesLoopAgrees | preprocessing.py:94-100 | Given enough turns, the byte-comparing loop breaks exactly when `ReadToken` finds a word, with the same word and the same bytes consumed. It spins exactly when `ReadToken` fails. |

## Left out

- Opening and reading files, `str(line, 'utf-8')` decoding, `pickle` and the `__main__` script are not modelled. `build_pos_neg_data` (pandas CSV filtering) is not modelled either. Lines arrive already decoded; the word2vec file arrives as its bytes.
- The commented-out gensim loader (lines 107-110) is not code and is not modelled.
- Randomness: `np.random.randint` and `np.random.uniform` are oracles. Corpus.RandomFold reduces a raw draw modulo `cv` instead of following numpy's bounded-integer algorithm. Embedding.Uniform takes components from the oracle as given: the range `[-0.25, 0.25)` is not modelled, because vector components are abstract.
- Floating point: `np.fromstring(..., dtype='float32')` is not decoded. Word2Vec.Load keeps each payload as its `4*k` raw bytes. The `float32` matrix of `get_W` is a matrix of abstract components.
- Word2Vec.Load: a payload shorter than `4*k` bytes is the error `TruncatedPayload`. Python does not check this. For a skipped record, `f.read(binary_len)` on line 104 quietly returns the short block; if that was the last record, `load_bin_vec` returns normally. For a kept record, `fromstring` raises on a length that is not a multiple of 4 and silently keeps a short vector otherwise. If more records follow a short block, the word loop of the next record reaches the end of the file and spins (see "Findings").
- Word2Vec.Load: a negative vector size with at least one record is the error `NegativeDimension`. Python would go on with `f.read` of a negative length, which reads the rest of the file. With no records the size is never used, and both Python and the model return `{}`.
- Word2Vec.Load reads the word as bytes and compares it with a vocabulary of byte strings. This is the evidently intended reading of lines 94-101; see "Findings" for the code as written.
- Word2Vec.ParseInt: `int()` also accepts `_` digit separators and surrounding whitespace inside a field. Fields never hold whitespace here, but underscores are rejected by the model.
- Corpus.BuildDataCv: the counter holds natural numbers, where Python's `defaultdict(float)` holds floats of the same values. It is returned as a map, because its key order follows the iteration order of a Python `set`, which depends on string hashing.
- Embedding.AddUnknownWords therefore takes the vocabulary as an ordered dictionary in whatever order the caller chose.
- Clean.Lower lowercases ASCII letters only. On `clean_str` output this is exact, because that output is ASCII. On the uncleaned path (`clean_string=False`) Python's `str.lower()` also folds other scripts.
- The comment on line 40 says `y = 0` means positive, but the code gives positives `y = 1`. The model follows the code.
- Embedding.Fits: broadcasting is modelled for one-dimensional vectors, of length `k` or 1. Scalars and higher-dimensional arrays are not modelled.

## Findings

| source | as written | input that shows it | evidently intended | confidence | as-written member | corrected member |
|---|---|---|---|---|---|---|
| preprocessing.py:95-100 | `f.read(1)` returns `bytes`, compared with the `str` values `' '` and `'\n'`. In Python 3 these are never equal, so the `break` is never reached. Every byte, line feeds included, is appended to `word`, and the loop continues past the end of the file. | any file; e.g. a record starting `b"a "` | stop at the first space byte and drop line feeds (compare with `b' '` and `b'\n'`, and join the collected bytes into the word) | high (not executed) | AsWritten.WordLoopNeverBreaks | Word2Vec.ReadTokenStopsAtFirstSpace |
| preprocessing.py:94-100 | There is no end-of-file test. Once the file is exhausted, `f.read(1)` returns `b''` forever, so even with byte comparisons the loop spins when no space byte remains. | a truncated file whose last record has no space, e.g. `b"1 1\nabc"` | report the truncated input | medium (not executed) | AsWritten.BytesLoopSpinsAtEnd | Word2Vec.ReadTokenStopsAtFirstSpace |
