# Darsana n-gram scoring core, in Dafny

Darsana compares two text corpora by the word n-grams they share. This
project models its three core pieces and proves what they compute:

- `strings.dfy` (module `Strings`): Java's `String.split(" ")` on a single
  space (the whole string when it has no space, otherwise every field with
  the trailing empty fields dropped), the plain field split, and joining
  tokens with single spaces.
- `ngram.dfy` (module `Grams`): the `NGram` iterator, a cursor class over the
  split tokens whose ghost `produced` sequence records the grams yielded so
  far, the `StringBuilder` loop of `next()`, and a driver that drains a fresh
  iterator. The window size is an unbounded `int`. For a size of zero or less
  the Java code yields `T - n + 1` empty grams and the model does the same.
- `scorer.dfy` (module `Scorer`): `Scorer.Score`. It has two counting loops
  over one count map and then drops every gram counted exactly once. The
  scoring-method selector changes nothing. The loops are tied to a loop-free
  reference `ScoreOf`: the grams occurring at least twice across both
  corpora, with their counts.
- `dictionary.dfy` (module `Dictionaries`): the lemma dictionary, an
  insertion-ordered set-valued multimap. It is modelled as a sequence of
  `(lemma, set of forms)` entries with distinct lemmas. Parameters named
  `lemma` in Java are called `word` here, because `lemma` is a Dafny keyword.

There is no step that keeps only grams present in both corpora: a gram
repeated inside one corpus survives (`RepeatWithinOneCorpusKept`). Counts
are integers, not floating-point scores. Tokens come from splitting on the
single character `' '`, not on any whitespace. The result is an unordered map.

Splitting a gram back into tokens gives its `n` tokens if `n == 1` or the
window's last token is non-empty (`WindowSplit`). For two or more words with
an empty last word it never does (`SplitJoinLosesEmptyLast`). A corpus with
two spaces in a row can produce such a window:
`"a  b"` at size 2 yields the gram `"a "`, and Java's split of that is `["a"]`
(`DoubleSpaceWindow`). The Java code never re-splits a gram, so this is a
limit of the round trip, not a defect. The plain field split `Fields` undoes
the join for every window of size `n >= 1` (`WindowFields`).

## Model

| member | source | states |
|---|---|---|
| Strings.Split | src/main/java/util/NGram.java:29 | The tokens never contain a space. A corpus without a space is one token. Otherwise the last token is never empty. |
| Strings.SplitJoinInverse | src/main/java/util/NGram.java:29 | Splitting one or more space-free words joined by single spaces gives the words back, unless there are several words and the last one is empty. |
| Strings.SplitJoinLosesEmptyLast | src/main/java/util/NGram.java:29 | With two or more words and an empty last word, splitting the join does not give the words back: the split drops that word. |
| Strings.JoinFields | src/main/java/util/NGram.java:29 | Joining the fields of a string with single spaces rebuilds the string. |
| Strings.SplitJoin | src/main/java/util/NGram.java:29 | The split drops only trailing spaces: the joined tokens are a prefix of the corpus, and every character after that prefix is a space. |
| Strings.FieldsCount | src/main/java/util/NGram.java:29 | A string has exactly one more field than it has spaces. |
| Strings.SplitNormalized | src/main/java/util/NGram.java:29 | A non-empty corpus that does not end in a space splits into all its fields, one more token than it has spaces. |
| Grams.WindowsFrom | src/main/java/util/NGram.java:33-46 | From cursor `pos` there are `max(0, T - n + 1 - pos)` grams left, and the `i`-th of them is the window starting at token `pos + i`. |
| Grams.NGram.constructor | src/main/java/util/NGram.java:27-30 | A new iterator holds the Java split of the corpus and the window size, with its cursor at 0 and no gram produced yet. |
| Grams.NGram.HasNext | src/main/java/util/NGram.java:33-35 | Another gram exists exactly when `pos + n <= T`, which is when the cursor has not yet produced every window. |
| Grams.BuildGram | src/main/java/util/NGram.java:39-44 | The builder loop produces tokens `pos..pos+n` joined by single spaces, with no leading or trailing separator. When `n >= 1`, splitting the result at every space gives back exactly those tokens. |
| Grams.NGram.Next | src/main/java/util/NGram.java:37-47 | When another gram exists, the call returns the window at the cursor, advances the cursor by exactly 1, leaves the tokens and the window size unchanged, and appends the gram to the grams produced. |
| Grams.NGram.Remove | src/main/java/util/NGram.java:50-52 | Removal always fails, and it reads and writes no state. |
| Grams.Drain | src/main/java/util/NGram.java:25-46 | A fresh iterator yields exactly `max(0, T - n + 1)` grams before `hasNext()` turns false. The `i`-th gram is the window starting at token `i`, so grams come out left to right. |
| Grams.WindowFields | src/main/java/util/NGram.java:41-44 | For `n >= 1`, splitting a gram at every space gives back exactly its `n` tokens. |
| Grams.WindowSplit | src/main/java/util/NGram.java:29-44 | Java's split of a gram gives back exactly its `n` tokens when `n == 1` or the window's last token is non-empty. |
| Grams.DoubleSpaceWindow | src/main/java/util/NGram.java:29-44 | With two spaces between two words, the first bigram is the first word plus a space, and splitting it loses the empty second token. |
| Grams.ThreeWordBigrams | src/main/java/util/NGram.java:29-46 | Three space-free words, the last non-empty, yield exactly two bigrams: the first two words and the last two. |
| Scorer.Type.Value | src/main/java/org/darsana/nlp/Scorer.java:27-41 | The four scoring methods are selected by integers from 0 to 3, and 0 selects raw frequency and nothing else. |
| Scorer.Bump | src/main/java/org/darsana/nlp/Scorer.java:55-59 | Counting a gram adds it as a key if it is new, raises its count by one, and leaves every other count alone. |
| Scorer.Tally | src/main/java/org/darsana/nlp/Scorer.java:52-60 | After a counting loop, the keys are the old keys plus the grams counted. Each count is the old count plus the gram's occurrences in the counted sequence. |
| Scorer.TotalTally | src/main/java/org/darsana/nlp/Scorer.java:52-60 | A counting loop raises the sum of all counts by the number of grams it consumes. |
| Scorer.CountGrams | src/main/java/org/darsana/nlp/Scorer.java:52-60 | Draining a fresh iterator into the count map adds each of its grams' occurrences to the count. |
| Scorer.CountBoth | src/main/java/org/darsana/nlp/Scorer.java:52-71 | Counting the source grams and then the destination grams from an empty map gives each gram its combined number of occurrences. |
| Scorer.CombinedCounts | src/main/java/org/darsana/nlp/Scorer.java:48-71 | Before filtering, each gram's count is its occurrences among the source grams plus those among the destination grams. The counts sum to `max(0, Ts - n + 1) + max(0, Td - n + 1)`. |
| Scorer.DropSingles | src/main/java/org/darsana/nlp/Scorer.java:73-82 | Removing the grams counted exactly once leaves exactly the grams occurring at least twice, with their counts. |
| Scorer.Score | src/main/java/org/darsana/nlp/Scorer.java:44-91 | A gram is a key if and only if its combined count is at least 2. Its value is that count, so every value is at least 2. The result is the loop-free `ScoreOf` of the two corpora, whatever the method selector. |
| Scorer.ScoreSymmetric | src/main/java/org/darsana/nlp/Scorer.java:52-71 | Swapping the source and destination corpora gives the same result. |
| Scorer.ScoreKeysAreGrams | src/main/java/org/darsana/nlp/Scorer.java:46-71 | Every key of the result is a gram of the source corpus or of the destination corpus. |
| Scorer.RepeatWithinOneCorpusKept | src/main/java/org/darsana/nlp/Scorer.java:52-82 | A gram occurring twice in the source corpus is kept even if the destination corpus never has it, with its source count as its value. |
| Scorer.SharedLeadingBigram | src/main/java/org/darsana/nlp/Scorer.java:44-91 | Two three-word corpora of space-free words, whose first two words differ from each other and are shared by both corpora, and whose non-empty third words differ, keep only the leading bigram, with count 2. |
| Scorer.RepeatedWordNotShared | src/main/java/org/darsana/nlp/Scorer.java:52-82 | At size 1, a source `x x` against a one-word destination `y` (space-free, `x` non-empty and different from `y`) keeps only `x`, with count 2. |
| Dictionaries.New | src/main/java/util/Dictionary.java:28-37 | A new dictionary reports the language it was built with and has no lemma. |
| Dictionaries.GetLemma | src/main/java/util/Dictionary.java:49-58 | The answer is `""` when no lemma's forms include the concept. Otherwise it is the earliest-inserted lemma whose forms include it. |
| Dictionaries.GetLemmaSound | src/main/java/util/Dictionary.java:51-55 | A non-empty answer is a lemma of the dictionary whose forms include the concept. |
| Dictionaries.PutLemma | src/main/java/util/Dictionary.java:65-67 | Adding a pair keeps the language and makes the lemma present. A new lemma goes last and existing lemmas keep their order. The lemma's forms gain the concept and every other lemma's forms are unchanged. Distinct, non-empty entries stay that way. |
| Dictionaries.GetLemmaAfterPut | src/main/java/util/Dictionary.java:49-67 | Filing a concept that no lemma held makes it resolve to the lemma it was filed under. |
| Dictionaries.PutLemmaIdempotent | src/main/java/util/Dictionary.java:28-67 | Adding the same (lemma, concept) pair twice is the same as adding it once, since forms form a set. |

## Left out

- `DarsanaController.java` is not part of this model. It holds the HTTP routing, request parsing with `Integer.parseInt`, regex punctuation stripping and lower-casing. It also calls `Scorer.ScoreGram`, which does not exist in `Scorer.java`.
- The relative-frequency, string-distance and tf-idf scoring methods are not modelled. The code has only a placeholder for them (Scorer.java line 89), and they would need floating-point arithmetic.
- The iteration order of Java's `HashMap` and the stream and `toRemove` list mechanics are left out. The result is an unordered map.
- Java `int` overflow is left out: counts, the cursor, and `T - n + 1` for `n` near the smallest `int` are unbounded integers here.
- Grams.NGram.Next: it requires `hasNext()`, so calls past the end are not modelled. For `n >= 1` such a call throws `ArrayIndexOutOfBoundsException` in Java. For `n <= 0` the Java loop never runs, so the call returns one more empty gram and advances the cursor without throwing.
- Java's general regular-expression splitting is left out. A single-space pattern is the only one the code uses.
- Guava's `LinkedHashMultimap` internals are left out. Only its observable behaviour is modelled: keys in insertion order and set-valued entries.
