# small-nlu: the stemmer and the classifier's data path, in Dafny

This project models the part of small-nlu that turns text into a ranked
list of intents, with everything except the trained network included.

- **English stemmer** (`src/english-stemmer.js`). It covers:
  - contraction expansion;
  - tokenisation on runs of non-word characters;
  - the Porter-style steps 1 to 5, the pronoun step 6 and per-token stemming.

  Each of the five regular expressions that test Porter's measure is written
  twice. One version is a scanner over the word. The other is a ghost
  predicate that states what the regular expression matches. A lemma proves
  the two agree on every string.
- **Classifier plumbing** (`src/nlu-classifier.js`):
  - feature extraction;
  - the vocabulary built from the training set (feature indices, label
    indices, the label list and the per-label feature lists);
  - the vector codecs;
  - the training set that `train` assembles, with its synthetic `None` example;
  - the whitelist gate;
  - the quadratic score normalisation and the descending sort;
  - `classify`, `getBestIntent` and `evaluate`;
  - the `toJSON`/`fromJSON` snapshot of a network.

Modules:

- `Options`, `Chars` and `Seqs` (base.dfy): option values, ASCII character
  classes, lower-casing and trimming, and de-duplication.
- `JsObjects` (jsobject.dfy): plain JavaScript objects, as an insertion
  order plus a map. `Keys` is `Object.keys`, which lists array-index keys
  first, in ascending numeric order, and then the other keys in insertion
  order.
- `Measure`, `Stemmer` and `StemmerExamples`: the stemmer.
- `Text` and `TextExamples`: contractions and tokenisation.
- `Features`: `extractFeatures`, with the emoji rewrite and the step 2/3
  suffix tables as parameters.
- `Vocabulary`: `buildDictionaries`.
- `Encoding`: `arrToFeatures`, `inputToVector`, `outputToVector` and
  `vectorToOutput`.
- `Gate`: `someSimilar` and `getWhitelist`.
- `Ranking`: `normalizeNeural` and the sort.
- `Classifier`: `train`'s data, `run`, `classify`, `getBestIntent` and
  `evaluate`. The network is a function from input vector to output vector.
  Feature extraction is also a function parameter.
- `Snapshot`: `toJSON`, `fromJSON` and the network's forward pass.

## Behaviour worth noting

- **`None` is gated like any other label.** `getWhitelist` starts from
  `{ None: true }`, but then overwrites the entry of every label of
  `labelFeatures`. `train` always gives `None` a feature list, so the `None`
  entry is overwritten too. `Classifier.NoneGate` states the resulting rule:
  if no intent of the corpus is named `None`, then `None` passes exactly when
  the query's `nonefeature` weight is truthy.
- **Empty tokens are kept.** `split(/\W+/)` keeps an empty first piece when
  the text starts with a non-word character. It also keeps an empty last
  piece when the text ends with one (`Text.SplitShape`,
  `TextExamples.TokenizeDont`). Stemming keeps the empty token, so `""`
  becomes a feature.
- **The second pass of step 1b.** The second pass can remove a suffix that
  the first pass exposed. So `succeeded` becomes `succee`
  (`StemmerExamples.Step1Succeeded`), where Porter's published algorithm
  gives `succeed`.

## Model

| member | source | states |
|---|---|---|
| Measure.Gt0Decides | src/english-stemmer.js:4 | the `gt0` scanner holds exactly when `^([^aeiou][^aeiouy]*)?([aeiouy][aeiou]*)([^aeiou][^aeiouy]*)` matches a prefix, i.e. the measure is at least 1 |
| Measure.Gt1Decides | src/english-stemmer.js:5 | the `gt1` scanner holds exactly when an optional consonant run followed by two or more vowel-run/consonant-run pairs matches a prefix |
| Measure.Eq1Decides | src/english-stemmer.js:6 | the `eq1` scanner holds exactly when the whole word is an optional consonant run, one VC pair and an optional vowel run |
| Measure.VowelInStemDecides | src/english-stemmer.js:7 | `vowelInStem` holds exactly when its regular expression matches, and exactly when some letter is in `[aeiouy]` |
| Measure.ConsonantLikeDecides | src/english-stemmer.js:8 | the consonant-vowel-consonant test holds exactly when the whole word is one consonant run, a vowel and a final letter outside `[aeiouwxy]` |
| Stemmer.LazySplit | src/english-stemmer.js:9-11 | `^(.+?)(alts)$`: a found split is the shortest non-empty, line-terminator-free capture whose rest is an alternative; no split means no such capture exists |
| Stemmer.LazySplitIs | src/english-stemmer.js:9-11 | any position satisfying the lazy-match conditions is the one `LazySplit` finds |
| Stemmer.Step1a | src/english-stemmer.js:16-20 | the word loses two letters exactly on an `sses`/`ies` ending with a non-empty stem, one letter exactly on a single final `s` after a non-`s`, and is otherwise unchanged; the result is always a prefix |
| Stemmer.EedRule | src/english-stemmer.js:21-24 | on an `eed` ending, the final `d` is dropped exactly when the stem before `eed` has measure > 0 by the regular expression; otherwise the word stays |
| Stemmer.EdIngRule | src/english-stemmer.js:25-41 | on an `ed`/`ing` ending (not `eed`), the suffix is dropped exactly when the stem holds a vowel by the regular expression, and the first pass then repairs the stem with `Restore` |
| Stemmer.EedEdIngNoSuffix | src/english-stemmer.js:21-41 | a word ending in neither `ed` nor `ing` passes both 1b passes unchanged |
| Stemmer.EedEdIng | src/english-stemmer.js:21-41 | one pass of step 1b, the `eed` rule tried before `ed`/`ing`, the repair only on the first pass; its behaviour is stated by the rows Stemmer.EedRule, Stemmer.EdIngRule and Stemmer.EedEdIngNoSuffix |
| Stemmer.Restore | src/english-stemmer.js:27-33 | `e` is appended exactly after `at`/`bl`/`iz` or a consonant-vowel-consonant ending; a doubled final letter outside `[aeiouylsz]` is undoubled exactly when no `at`/`bl`/`iz` ending applies; otherwise the stem is kept |
| Stemmer.Step1c | src/english-stemmer.js:42-44 | the length is kept, and a changed word ended in `y` and now ends in `i` instead |
| Stemmer.Step1cRule | src/english-stemmer.js:42-44 | the word changes exactly when it ends in `y` after a non-empty stem with no line terminator that holds a vowel |
| Stemmer.Step1 | src/english-stemmer.js:13-46 | step 1a, two step 1b passes and step 1c in that order; stated by the rows Stemmer.Step1a, Stemmer.EedRule, Stemmer.EdIngRule, Stemmer.Step1cRule and the step 1 examples |
| Stemmer.StepRegList | src/english-stemmer.js:48-55 | the result is the word itself or its lazy stem with the table's replacement for the matched suffix, and only when the stem's measure is > 0 |
| Stemmer.StepRegListSplit | src/english-stemmer.js:48-59 | given the lazy split of the word, the suffix is replaced exactly when the regular expression `gt0` matches the stem |
| Stemmer.StepRegListShortStem | src/english-stemmer.js:48-59 | a word none of whose proper prefixes has measure > 0 is unchanged by steps 2 and 3, whatever the table |
| Stemmer.Step2 | src/english-stemmer.js:57 | `stepRegList` with the step 2 table; stated by the rows Stemmer.StepRegList, Stemmer.StepRegListSplit and Stemmer.StepRegListShortStem |
| Stemmer.Step3 | src/english-stemmer.js:59 | `stepRegList` with the step 3 table; stated by the same rows as Stemmer.Step2 |
| Stemmer.Step4 | src/english-stemmer.js:61-72 | the result is a prefix of the word, and when it differs it has measure > 1 |
| Stemmer.Step4Listed | src/english-stemmer.js:64-67 | on a listed suffix, the stem is kept exactly when the regular expression `gt1` matches it; otherwise the word stays |
| Stemmer.Step4Ion | src/english-stemmer.js:68-70 | with no listed suffix, `ion` after `s`/`t` is dropped exactly when the stem before it has measure > 1; otherwise the word stays |
| Stemmer.DropFinalE | src/english-stemmer.js:77-79 | a changed word lost exactly a final `e`, and the rest has measure > 1, or measure 1 without a consonant-vowel-consonant ending |
| Stemmer.DropFinalERule | src/english-stemmer.js:77-79 | on a final `e`, it is dropped exactly when the regular-expression conditions `gt1`, or `eq1` and not `consonantLike`, hold of the stem |
| Stemmer.Step5DoubleL | src/english-stemmer.js:80-82 | after the `e` rule, a final `ll` loses one `l` exactly when the word has measure > 1 |
| Stemmer.Step5 | src/english-stemmer.js:74-84 | the result is a prefix of the word, at most two letters shorter |
| Stemmer.ShortStemsUnchanged | src/english-stemmer.js:57-84 | a word with measure ≤ 1 and no proper prefix of measure > 0 passes steps 2 to 5 unchanged, whatever the suffix tables |
| Stemmer.Steps | src/english-stemmer.js:102 | steps 1 to 6 applied in order; stated by Stemmer.ShortStemsUnchanged, Stemmer.StemNormalized and the examples StemmerExamples.StepsRunning and StemmerExamples.StepsYour |
| Stemmer.Step6 | src/english-stemmer.js:86-92 | `your` and `are` in any ASCII case become `you` and `is`; every other word is returned as given |
| Stemmer.MarkY | src/english-stemmer.js:99-101 | only the first letter may change, from `y` to `Y`, so that the result never starts with a lower-case `y` |
| Stemmer.MarkYLowers | src/english-stemmer.js:99-101 | lower-casing undoes the `Y` marking of a lower-case word |
| Stemmer.StemToken | src/english-stemmer.js:94-103 | the stem is lower-case; a token shorter than three characters after lower-casing and trimming is returned as that trimmed lower-case text |
| Stemmer.StemNormalized | src/english-stemmer.js:96-102 | a lower-case word stems to a lower-case word; words under three letters are unchanged |
| Stemmer.Stem | src/english-stemmer.js:117 | a single token yields the one-element list of its stem; a token list yields, at each position, the stem of the token at that position; every stem is lower-case |
| Text.Replace | src/english-stemmer.js:106-111 | one case-insensitive global replacement of the particle followed by a delimiter or the end; stated by the rows Text.ReplaceFirstMatch, Text.ReplaceNoMatch and Text.ReplaceAbsent |
| Text.ReplaceFirstMatch | src/english-stemmer.js:106-111 | at the first position where the particle occurs, in any case, followed by a delimiter or the end, it and the delimiter become the expansion; the text before is kept and the rewrite resumes after the delimiter |
| Text.ReplaceNoMatch | src/english-stemmer.js:106-111 | a text with no position where the particle is followed by a delimiter or the end is left unchanged, even if the particle occurs in it |
| TextExamples.DontxUnchanged | src/english-stemmer.js:106-111 | `don'tx` is left as it is: `n't` followed by a word character is no match |
| TextExamples.ExpandFirstMatch | src/english-stemmer.js:106-111 | `can't.` becomes `ca not `: the match and its delimiter are replaced together |
| Text.ReplaceAbsent | src/english-stemmer.js:106-111 | a text in which the particle does not occur, in any case, is left unchanged by the contraction rewrite |
| Text.ReplaceContractions | src/english-stemmer.js:105-113 | the six rewrites in source order; stated by the rows Text.ReplaceContractionsIdentity, Text.ReplaceContractionsLower and TextExamples.ReplaceContractionsDont |
| TextExamples.ReplaceContractionsDont | src/english-stemmer.js:105-113 | `don't` becomes `do not ` |
| Text.ReplaceContractionsIdentity | src/english-stemmer.js:105-113 | a text without an apostrophe is left unchanged by `replaceContractions` |
| Text.ReplaceContractionsLower | src/english-stemmer.js:105-113 | expanding contractions commutes with ASCII lower-casing: the match is case-insensitive and the expansions are lower-case |
| Text.Split | src/english-stemmer.js:115 | at least one piece; what the pieces are is stated by the rows Text.SplitInterleaves and Text.SplitUnique, with Text.SplitShape |
| Text.SplitInterleaves | src/english-stemmer.js:115 | for every text, putting back one non-empty run of non-word characters between each two neighbouring pieces gives the text |
| Text.SplitUnique | src/english-stemmer.js:115 | any split-shaped pieces that rebuild the text with non-empty non-word runs between them are exactly the pieces `split(/\W+/)` returns |
| Text.SplitFirst | src/english-stemmer.js:115 | the first piece of `split(/\W+/)` is empty exactly when the text is empty or starts with a non-word character |
| Text.SplitShape | src/english-stemmer.js:115 | the pieces hold word characters only, none is empty except the first and last, and the last is empty exactly when the text is empty or ends with a non-word character |
| Text.SplitKeepsWordChars | src/english-stemmer.js:115 | concatenating the pieces gives exactly the word characters of the text, in order |
| Text.SplitJoinSpaced | src/english-stemmer.js:115 | every list of the shape `split` produces is recovered by splitting its space-joined text |
| Text.JoinSpacedSplit | src/english-stemmer.js:115 | a text whose non-word characters are single spaces before a word character is recovered by joining its pieces with spaces |
| Text.Tokenize | src/english-stemmer.js:115 | the tokens are word-character-only pieces with no empty piece inside the list |
| Text.TokenizeInterleaves | src/english-stemmer.js:105-115 | the tokens, with one maximal non-word run put back between each two neighbours, rebuild the contraction-expanded text |
| Text.TokenizeUnique | src/english-stemmer.js:105-115 | no other token list fits: split-shaped pieces that rebuild the expanded text with non-empty non-word runs between them are the tokens |
| Text.TokenizeKeepsWordChars | src/english-stemmer.js:115 | the tokens hold exactly the word characters of the contraction-expanded text |
| TextExamples.TokenizeDont | src/english-stemmer.js:105-115 | `don't` tokenises to `do`, `not` and a trailing empty token |
| TextExamples.ExpandIsDelimited | src/english-stemmer.js:107 | the delimiter after a particle is consumed by the expansion |
| TextExamples.SplitTrailingPunctuation | src/english-stemmer.js:115 | `hi!` splits to `hi` and an empty piece |
| TextExamples.SplitDashes | src/english-stemmer.js:115 | `ab--cd` splits to `ab` and `cd` |
| TextExamples.SplitCommaSpace | src/english-stemmer.js:115 | `hi, there` splits to `hi` and `there` |
| StemmerExamples.Step1Caresses | src/english-stemmer.js:16-17 | `caresses` becomes `caress` |
| StemmerExamples.Step1Ponies | src/english-stemmer.js:16-17 | `ponies` becomes `poni` |
| StemmerExamples.Step1Cats | src/english-stemmer.js:18-19 | `cats` becomes `cat` |
| StemmerExamples.Step1Feed | src/english-stemmer.js:21-24 | `feed` is kept: its stem `f` has measure 0 |
| StemmerExamples.Step1Agreed | src/english-stemmer.js:21-24 | `agreed` becomes `agree` |
| StemmerExamples.Step1Plastered | src/english-stemmer.js:25-26 | `plastered` becomes `plaster` |
| StemmerExamples.Step1Motoring | src/english-stemmer.js:25-26 | `motoring` becomes `motor` |
| StemmerExamples.Step1Sing | src/english-stemmer.js:25 | `sing` is kept: its stem `s` has no vowel |
| StemmerExamples.Step1Hopping | src/english-stemmer.js:29-30 | `hopping` becomes `hop` by undoubling |
| StemmerExamples.Step1Filing | src/english-stemmer.js:31-32 | `filing` becomes `file` by the consonant-vowel-consonant repair |
| StemmerExamples.SucceededPass2 | src/english-stemmer.js:35-38 | the second 1b pass turns `succeed` into `succee` |
| StemmerExamples.Step1Succeeded | src/english-stemmer.js:21-41 | `succeeded` becomes `succee` through both 1b passes |
| StemmerExamples.Step1Happy | src/english-stemmer.js:42-44 | `happy` becomes `happi` |
| StemmerExamples.Step1LeadingY | src/english-stemmer.js:99-101 | an unmarked `ying` would lose `ing`, while the marked `Ying` keeps it because `Y` is a consonant |
| StemmerExamples.Step4Adjustment | src/english-stemmer.js:64-67 | `adjustment` becomes `adjust` |
| StemmerExamples.Step4Adoption | src/english-stemmer.js:68-70 | `adoption` becomes `adopt` |
| StemmerExamples.Step5Rate | src/english-stemmer.js:77-79 | `rate` keeps its `e`: `rat` has measure 1 and ends consonant-vowel-consonant |
| StemmerExamples.Step5Controll | src/english-stemmer.js:80-82 | `controll` becomes `control` |
| StemmerExamples.StepsRunning | src/english-stemmer.js:102 | `running` stems to `run` for every pair of suffix tables |
| StemmerExamples.StepsYour | src/english-stemmer.js:99-102 | the marked `Your` goes through steps 1 to 6 to `you` |
| StemmerExamples.StemShort | src/english-stemmer.js:95-98 | `Hi` stems to `hi` |
| StemmerExamples.Step6Examples | src/english-stemmer.js:86-92 | `ARE` → `is`, `YoUr` → `you`, `you` unchanged |
| JsObjects.Keys | src/nlu-classifier.js:64 | `Object.keys` lists each own key exactly once and nothing else |
| JsObjects.KeysOrdered | src/nlu-classifier.js:64 | array-index keys come first in ascending numeric order, the other keys follow in insertion order |
| JsObjects.KeysOfNamedObject | src/nlu-classifier.js:64 | an object without array-index keys lists its keys in insertion order |
| Encoding.ArrToFeatures | src/nlu-classifier.js:6 | each word put with weight 1; stated by the row Encoding.ArrToFeaturesSpec |
| Encoding.ArrToFeaturesSpec | src/nlu-classifier.js:6 | the object has exactly the given words as keys, each with weight 1, inserted in first-occurrence order |
| Features.ExtractFeatures | src/nlu-classifier.js:8 | `arrToFeatures` of the stemmed tokens of the emoji-rewritten text; stated by the rows Features.StemmedTokenAt and Features.ExtractFeaturesSpec |
| Features.StemmedTokenAt | src/nlu-classifier.js:8 | the i-th stemmed token is the stem of the i-th token of the emoji-rewritten text |
| Features.ExtractFeaturesSpec | src/nlu-classifier.js:8 | the features are exactly the stems of the tokens, inserted in first-occurrence order, each with weight 1 and lower-case |
| Encoding.OutputToVector | src/nlu-classifier.js:10-15 | the vector has `numLabels` entries; its contents are stated by the row Encoding.OutputToVectorSpec |
| Encoding.OutputToVectorSpec | src/nlu-classifier.js:10-15 | position i is 1 exactly when some output label has index i, and 0 otherwise |
| Encoding.VectorToOutput | src/nlu-classifier.js:17 | each label of the list put with the entry at its position, for a vector at least as long as the list; stated by the row Encoding.VectorToOutputSpec |
| Encoding.VectorToOutputSpec | src/nlu-classifier.js:17 | over a repetition-free label list, the keys are exactly the labels, inserted in the order of the label list, the i-th label carrying the i-th vector entry |
| Encoding.LabelsRoundTrip | src/nlu-classifier.js:10-17 | with a label index inverse to the label list, decoding the encoded output gives 1 for each output label and 0 for every other label |
| Encoding.InputToVector | src/nlu-classifier.js:19-27 | the vector has `numFeatures` entries |
| Encoding.InputToVectorKnown | src/nlu-classifier.js:19-27 | for every query, each known feature's weight lands at its index; the one case left unstated is `nonefeature` in a query that also holds unknown features, where that slot is shared |
| Encoding.InputToVectorNone | src/nlu-classifier.js:20-24 | the `nonefeature` slot receives 1/(4·keys) once per unknown key of the input |
| Encoding.InputToVectorZeros | src/nlu-classifier.js:19-27 | a position that is neither the index of an input feature nor the `nonefeature` index stays 0 |
| Gate.SomeSimilar | src/nlu-classifier.js:29-36 | true exactly when some listed feature has a present, non-zero weight in the query |
| Gate.MarkSimilar | src/nlu-classifier.js:38-39 | the reduce step of `getWhitelist`; stated by the row Gate.MarkSimilarSpec |
| Gate.MarkSimilarSpec | src/nlu-classifier.js:38-39 | the keys become the old keys plus the listed labels; each listed label is set to whether the query is similar to its features; every other key keeps its value |
| Gate.GetWhitelist | src/nlu-classifier.js:38-39 | starts from `{ None: true }` and marks every key of `labelFeatures`; stated by the row Gate.WhitelistSpec |
| Gate.WhitelistSpec | src/nlu-classifier.js:38-39 | the whitelist holds `None` and every label with a feature list; a listed label passes exactly when one of its features is truthy in the query; `None` is unconditional only when it has no list |
| Gate.PassesOnListed | src/nlu-classifier.js:38-39 | a label passes when one of its listed features is truthy in the query |
| Gate.PassesFromListed | src/nlu-classifier.js:38-39 | a listed label that passes has a listed feature that is truthy in the query |
| Ranking.NormalizeNeural | src/nlu-classifier.js:41-47 | one entry per classification with the same intent at the same position; the scores are stated by the rows Ranking.NormalizePositive, Ranking.NormalizeZero and Ranking.NormalizeKeepsZero |
| Ranking.NormalizePositive | src/nlu-classifier.js:41-47 | with a positive sum of squares, each score becomes its square's share of that sum, every share lies in [0, 1] and the shares sum to 1 |
| Ranking.NormalizeZero | src/nlu-classifier.js:41-47 | a zero sum of squares means every score is 0 and the list is returned unchanged |
| Ranking.NormalizeKeepsZero | src/nlu-classifier.js:41-47 | a zero score stays zero |
| Ranking.SortByScore | src/nlu-classifier.js:116 | the sorted list is a permutation of the input; order and stability are stated by the row Ranking.SortSpec |
| Ranking.SortSpec | src/nlu-classifier.js:116 | the sort is a permutation, its scores do not increase, and entries with equal scores keep their relative order |
| Vocabulary.BuildDictionaries | src/nlu-classifier.js:54-86 | the examples visited in order from empty dictionaries; stated by the rows Vocabulary.FeatureIndex to Vocabulary.LabelFeatureFrom |
| Vocabulary.FeatureIndex | src/nlu-classifier.js:62-69 | the features indexed are exactly those of some example's input; indices are distinct and below `numFeatures`, which counts the distinct features |
| Vocabulary.FeatureOrder | src/nlu-classifier.js:62-69 | feature indices follow the order in which features are first met in the corpus |
| Vocabulary.LabelList | src/nlu-classifier.js:70-75 | the label list holds, without repetition and in first-seen order, exactly the labels of the examples' outputs, and `numLabels` is its length |
| Vocabulary.LabelInverse | src/nlu-classifier.js:70-75 | the label index and the label list are inverse to each other |
| Vocabulary.LabelFeatureKeys | src/nlu-classifier.js:76-83 | a label has a feature list exactly when it has an index; the list is the de-duplicated features of the examples carrying the label |
| Vocabulary.LabelFeatureContents | src/nlu-classifier.js:76-83 | each feature list is repetition-free and holds exactly the features that occur in an example together with the label |
| Vocabulary.LabelFeatureFrom | src/nlu-classifier.js:76-83 | a listed feature of a label comes from an example that has both |
| Classifier.TrainData | src/nlu-classifier.js:89-97 | one example per utterance, then the synthetic `None` example; stated by the rows Classifier.TrainDataShape, Classifier.TrainExampleAt and Classifier.NoneExampleOnly |
| Classifier.TrainDataShape | src/nlu-classifier.js:89-97 | the training set has one example per utterance and then exactly the synthetic `None` example last |
| Classifier.TrainExampleAt | src/nlu-classifier.js:90-96 | the example for utterance j of intent i pairs the utterance's features with the output `{intent: 1}` |
| Classifier.TrainVocabulary | src/nlu-classifier.js:97-99 | after training, `nonefeature` is indexed, `None` is a label with `nonefeature` in its feature list, and every intent with an utterance is a label |
| Classifier.NoneExampleOnly | src/nlu-classifier.js:90-97 | when no intent is named `None`, the only example with label `None` is the synthetic one |
| Classifier.NoneGate | src/nlu-classifier.js:97-99 | `None` passes the gate when `nonefeature` is truthy in the query; when no intent is named `None`, it passes only then |
| Classifier.TrainVectors | src/nlu-classifier.js:100-103 | one vector pair per example, of `numFeatures` inputs and `numLabels` outputs |
| Classifier.TrainTarget | src/nlu-classifier.js:100-103 | the target vector of an utterance's example is one-hot at its intent's label index |
| Classifier.NetScores | src/nlu-classifier.js:110-113 | the network output for the query vector decoded by `vectorToOutput`; stated by the row Classifier.NetScoresKeys |
| Classifier.NetScoresKeys | src/nlu-classifier.js:110-113 | the keys of the decoded network output are exactly the labels, inserted in the order of the label list |
| Classifier.GatedScores | src/nlu-classifier.js:114-115 | each label keeps its network score when it passes the whitelist and gets 0 otherwise |
| Classifier.Run | src/nlu-classifier.js:109-117 | gate, rescale and sort the decoded network scores; stated by the rows Classifier.GatedScores to Classifier.RunBest |
| Classifier.RunGate | src/nlu-classifier.js:114-116 | after normalisation and sorting, every label that fails the whitelist scores 0 |
| Classifier.RunRanking | src/nlu-classifier.js:109-117 | `run` returns each label exactly once, as a permutation of the normalised gated scores, sorted by non-increasing score, ties kept in `Object.keys` order of the gated scores |
| Classifier.RunHasLabel | src/nlu-classifier.js:109-117 | every label of the label list appears in the result |
| Classifier.RunEntryIsLabel | src/nlu-classifier.js:109-117 | every entry of the result is a label of the label list |
| Classifier.RunBest | src/nlu-classifier.js:123-125 | with labels to rank, the first entry exists, is a label, and has the highest score |
| Classifier.Classify | src/nlu-classifier.js:119-121 | `run` on the query's features, extracted when the query is a text; stated by the row Classifier.BestIntentSpec |
| Classifier.Best | src/nlu-classifier.js:123-129 | the intent of the first classification; stated by the rows Classifier.RunBest and Classifier.BestIntentSpec |
| Classifier.BestIntent | src/nlu-classifier.js:119-129 | `getBestIntent`; stated by the row Classifier.BestIntentSpec |
| Classifier.BestIntentSpec | src/nlu-classifier.js:119-129 | for a text or a feature object, the best intent is a label and the first classification scores at least as high as every other |
| Classifier.Correct | src/nlu-classifier.js:135-136 | an example is correct when its best intent is the first key of its output; used by the rows Classifier.CountStep and Classifier.Evaluate |
| Classifier.CountCorrect | src/nlu-classifier.js:131-145 | the number of correct examples, at most the number of examples |
| Classifier.CountStep | src/nlu-classifier.js:134-143 | adding one example adds 1 to the correct count exactly when its best intent is the first label of its output |
| Classifier.Evaluate | src/nlu-classifier.js:131-145 | `good` counts the examples whose best intent is the first key of their output, `bad` the rest, and together they cover the data |
| Snapshot.ToJson | src/nlu-classifier.js:147-162 | the snapshot exists exactly when there is a perceptron per output; it copies the settings, the output count and buffer, and per output the weights and bias |
| Snapshot.FromJson | src/nlu-classifier.js:164-182 | the snapshot's settings override the network's; the output buffer is zeroed; each perceptron gets the saved weights and bias with zero momentum of the same length |
| Snapshot.Activate | src/neural-network.js:37 | a negative sum gives 0, and with a non-negative `alpha` the output is never negative |
| Snapshot.Forward | src/neural-network.js:26-40 | one output per node, all non-negative when `alpha` is |
| Snapshot.ForwardDependsOnWeights | src/neural-network.js:26-40 | the forward pass reads only `alpha`, the output count and each node's weights and bias |
| Snapshot.SaveThenLoad | src/nlu-classifier.js:147-182 | loading a saved network restores its weights, biases, output count and settings, with a zero buffer and zero momentum |
| Snapshot.RestoredRunsAlike | src/nlu-classifier.js:147-182 | the restored network answers every input exactly as the saved one |
| Snapshot.LoadThenSave | src/nlu-classifier.js:147-182 | saving a loaded snapshot gives back its perceptrons and output count, with merged settings and a zero buffer |

## Left out

- The network is a parameter, a function from input vector to output
  vector. `neural-network.js` training (`train`, `trainSample`,
  `adjustWeights`, the momentum updates) is not part of this model.
  `Snapshot.Forward` models `run` only so that the snapshot round trip can
  be stated as "answers alike".
- `unemojify` is a parameter (`Features.Pipeline.unemojify`). `unemojify.js`
  is not part of this model.
- The step 2 and step 3 suffix tables (`english-stemmer-tokens.json`) are
  parameters. They must be non-empty, with non-empty lower-case letter keys
  (`Stemmer.ValidTable`). An empty table would make the generated regular
  expression match `${stem}undefined`; that case is excluded.
- `Classifier` takes the feature extraction as a parameter. The classifier
  as written uses `Features.ExtractFeatures`.
- File I/O, console output and timing are not modelled:
  - `export`/`import` and `fs`;
  - `console.info`/`console.log` in `train` and `evaluate`;
  - `process.hrtime`.
- `Float32Array` rounding: vectors are sequences of exact reals.
- Special key names: prototype-inherited names such as `constructor` or
  `__proto__` are treated as absent keys. Where a whitelist or dictionary
  lookup would find an inherited value, the model sees none.
- JsObjects.Put: stores every key, `__proto__` included. In JavaScript an
  assignment to `__proto__` goes through the inherited setter instead: a
  number or boolean is dropped, so no own key is created and `Object.keys`
  never lists it, and an array replaces the object's prototype. So for the
  utterance `__proto__` (`_` is a word character, and no stemming step
  changes the token) `arrToFeatures` (src/nlu-classifier.js:6) gives `{}`
  while `Features.ExtractFeatures` gives `{"__proto__": 1}`, which in turn
  changes `numFeatures` after `buildDictionaries` and the `nonedelta` of
  `inputToVector`. Likewise an intent named `__proto__` disappears from the
  scores `vectorToOutput` (src/nlu-classifier.js:17) builds, and so from
  `run`'s result, in JavaScript but not in the model.
- Characters outside the Basic Multilingual Plane: a Dafny string is a
  sequence of Unicode scalar values, while JavaScript lengths, slices and the
  regular-expression `.` count UTF-16 code units. So the length test of
  `stemToken` (src/english-stemmer.js:96) and the step 1a patterns and
  slices (src/english-stemmer.js:16-20) differ on such characters: `stem`
  turns `😀s` into `😀`, while `Stemmer.StemToken` leaves it as `😀s`.
  Tokens produced by `tokenize` are ASCII, so the pipeline never reaches this
  case, but a direct call to `stem` can.
- Non-ASCII case: lower-casing and case-insensitive matching are ASCII only.
  Tokens reaching the stemmer are `\w` characters, so the pipeline is exact
  there.
- Classifier.NetScores, Classifier.Run, Classifier.Classify,
  Classifier.BestIntent, Classifier.Correct, Classifier.CountCorrect,
  Classifier.Evaluate: these require `Answers` (or `AnswersAll` over the
  data), i.e. that the network returns at least one score per label. A
  shorter output makes the source read `undefined` scores, which is not
  modelled.
- Classifier.Best: an empty classification list gives `None`. In the source,
  `getBestClassification(...)[0].intent` throws.
- Classifier.Correct: an example whose classification list is empty counts
  as bad instead of throwing.
- The JavaScript sort is taken to be stable (ES2019 and later).
- Snapshot.FromJson: the network's hyper-parameters are a map of numeric
  settings. Non-numeric fields copied by `toJSON`/`fromJSON` (`status`) are
  not modelled.
- The `NeuralNetwork` constructor's defaults are not modelled. They
  override any options given, and `Forward` requires an `alpha` setting
  instead.
- Snapshot.ToJson: an untrained network, whose `outputSize` is `undefined`,
  is not modelled. The output count is a natural number.
- Classifier.TrainTarget: stated for any label index that contains the
  intent. `Classifier.IntentKnown` shows the trained index is one such.
- Stemmer.Step5: its own contract states only the length bound. The rules
  are stated by `Stemmer.DropFinalERule` and `Stemmer.Step5DoubleL`.
