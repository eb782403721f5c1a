# NTextCat: character n-gram extraction and binary profile loading

This project models two parts of NTextCat, a language identifier, and proves properties of them.

**The character n-gram extractor** (`CharacterNGramExtractor`) turns a text into the
character n-grams that language profiles are built from:

- A word is a maximal run of letters.
- Each word is padded as `_word_`.
- The padded word is pushed, one character at a time, through `maxNGramLength` sliding
  windows. Window `j` holds at most `j+1` characters.
- Window 0 emits every character except `_`. Window `j >= 1` emits its contents once it
  is full.
- A line counter stops reading at the character that brings it to `maxLinesToRead`.

The module `NGramSpec` states the output in closed form: `Features(text, n, limit, isLetter)`.
It is the n-grams of every padded word of the text read before the line limit, word after
word. The imperative methods of `NGramExtractor` (the `TextReader` overload, with its window
queues) are proved to produce exactly `Features`. `NGramExample` works the example `"abc"`
with trigrams.

`SeparatedExtractor` models `GetFeaturesAlreadyUnderscoreSeparated`:

- Its only separator is `_`.
- Its queues are `CharQueue` objects: index ranges over the text that check every enqueued
  character against the text.
- On success it cuts out of the text exactly the slices of the closed form `Features` with `_`
  as the only separator (`isLetter := NotBoundary`). This is not what the `TextReader` overload
  gives: that one separates at every non-letter, so for `"_a b_"` it sees two words where this
  variant sees the one word `a b`.
- It throws in the cases its queues reject: a text whose first character starts a word, and
  a word still open where reading stops. Before throwing, it has produced the features of
  the words before.

**The binary profile loader** (`BasicProfileFactoryBase.LoadBinary`):

- `ProfileFormat` gives the format as a functional decoder `Decode` over a stream of items.
  Each item is an Int32 or a string.
- `ProfileFactory` models:
  - the factory's `Create` and `Load(Stream)` forwarding;
  - a reader class whose cursor advances item by item;
  - the imperative `LoadBinary`, proved to give what `Decode` followed by `Load` gives.
- `ProfileFormat` also defines the writer that the format implies. With it, the model proves:
  - a round trip: decoding a written profile gives the profile back;
  - truncated streams are rejected;
  - loading a written binary profile equals `Load` of the same profile.

The factory's constructor (`BasicProfileFactoryBase.cs:40-47`) stores its five arguments
unchanged, so it is the `ProfileFactory.Factory` datatype's constructor.
`IsSeparator` is `NGramExtractor.IsSeparator`. In the underscore variant, `NotBoundary`
takes its place.

Where the source yields lazily, the model returns the whole sequence of features.
An exception is a `failure` value returned alongside the features yielded before it.

## Model

| member | source | states |
|---|---|---|
| NGramExtractor.IsSeparator | src/NTextCat/CharacterNGramExtractor.cs:294-297 | a character is a separator exactly when it is not a letter: on its own it forms no word, while a letter forms the one-letter word |
| NGramExtractor.NewExtractor | src/NTextCat/CharacterNGramExtractor.cs:19-25 | fails with ArgumentOutOfRange on "maxNGramLength" exactly when the length is not positive; otherwise both settings are stored unchanged |
| NGramExtractor.GetFeatures | src/NTextCat/CharacterNGramExtractor.cs:162-232 | the tokens are exactly `Features`: the n-grams of every padded word read before the line limit, in order, the last open word flushed with a synthesized `_` |
| NGramExtractor.GetFeaturesOfChars | src/NTextCat/CharacterNGramExtractor.cs:33-47 | the char[] and string overloads give `Features` of the same characters |
| NGramExtractor.ReadCharacter | src/NTextCat/CharacterNGramExtractor.cs:182-221 | one character below the limit keeps insideWord equal to "a word is open", keeps the windows holding the pending padded word, and extends the output by what the closed form adds for that character |
| NGramExtractor.UpdateAndProduceNgrams | src/NTextCat/CharacterNGramExtractor.cs:265-292 | draining the pending characters appends exactly the n-grams they complete (`Grams(q) + tokens == Grams(q + chars)`) and leaves each window holding the tail of the padded word |
| NGramExtractor.TakeNext | src/NTextCat/CharacterNGramExtractor.cs:267-270 | one dequeued character moves from the queue to the processed part, and the n-grams it releases extend the output |
| NGramExtractor.PushThroughWindows | src/NTextCat/CharacterNGramExtractor.cs:270-290 | one character through windows 0..n-1 in ascending order emits `StepTokens`, and every window j then holds the last j+1 characters |
| NGramExtractor.SlideAt | src/NTextCat/CharacterNGramExtractor.cs:272-289 | window j advances and its emission extends the step's output; the other windows are untouched |
| NGramExtractor.SlideWindow | src/NTextCat/CharacterNGramExtractor.cs:272-289 | a window of size j+1 that held the last j+1 characters holds them after the new one, and emits what the closed form says window j emits |
| NGramExtractor.Advance | src/NTextCat/CharacterNGramExtractor.cs:273-275 | dropping the oldest character of a full window and enqueueing the new one gives the tail of length j+1 |
| NGramExtractor.WindowEmission | src/NTextCat/CharacterNGramExtractor.cs:277-289 | window 0 emits its character unless it is `_`; window j >= 1 emits its contents only when full |
| NGramExtractor.TailSnoc | src/NTextCat/CharacterNGramExtractor.cs:273-275 | the tail of length j+1 after one more character is the old tail, minus its first character when full, plus the new one |
| NGramExtractor.TailToken | src/NTextCat/CharacterNGramExtractor.cs:277-289 | a full window holds exactly the j+1 characters ending at the newest one |
| NGramExtractor.WindowsSplitAll | src/NTextCat/CharacterNGramExtractor.cs:270 | the recursive statement about windows k.. of the loop over j is the quantified one |
| NGramExtractor.TakenGrams | src/NTextCat/CharacterNGramExtractor.cs:267-291 | the n-grams produced so far, followed by what one more character releases, are those of the longer word |
| NGramExtractor.TakenQueue | src/NTextCat/CharacterNGramExtractor.cs:269 | dequeuing moves the first pending character to the end of what has been processed |
| NGramSpec.CutFrom | src/NTextCat/CharacterNGramExtractor.cs:177-180 | the cut lies between the starting position and the end of the text |
| NGramSpec.Tail | src/NTextCat/CharacterNGramExtractor.cs:273-275 | a window of size k holds min(k, length) characters |
| NGramSpec.CutIsFirstLimitHit | src/NTextCat/CharacterNGramExtractor.cs:177-180 | every character before the cut leaves the counter below the limit, and the character at the cut brings it to the limit |
| NGramSpec.CutFromIsFirstLimitHit | src/NTextCat/CharacterNGramExtractor.cs:177-180 | the same, from any starting position |
| NGramSpec.CutAtLineBreak | src/NTextCat/CharacterNGramExtractor.cs:177-180 | once something has been read, reading stops only at a CR or an LF |
| NGramSpec.LinesReadStep | src/NTextCat/CharacterNGramExtractor.cs:177-178 | the counter grows by one exactly at a CR, or at an LF that does not follow a CR |
| NGramSpec.CountedStart | src/NTextCat/CharacterNGramExtractor.cs:164-170 | before anything is read the counter is 0 and the previous character is `\0` |
| NGramSpec.CountedStep | src/NTextCat/CharacterNGramExtractor.cs:176-180 | reading position i: the loop breaks exactly at the cut, and otherwise the counter and previous character carry over to i+1 |
| NGramSpec.OpenIsLetterSuffix | src/NTextCat/CharacterNGramExtractor.cs:184-210 | the open word is the longest suffix of letters: every character of it is a letter, and the one before it is a separator |
| NGramSpec.WordsAreLetterRuns | src/NTextCat/CharacterNGramExtractor.cs:184-210 | every word found is a non-empty run of letters; separators are never part of a word |
| NGramSpec.WordsOfWord | src/NTextCat/CharacterNGramExtractor.cs:184-210 | a text that is one run of letters is exactly one word |
| NGramSpec.AppendAfterSeparator | src/NTextCat/CharacterNGramExtractor.cs:184-210 | after a separator, the words of what follows are independent of what came before |
| NGramSpec.WordsSplit | src/NTextCat/CharacterNGramExtractor.cs:186-203 | a separator splits the words of a text into the words before it and the words after it |
| NGramSpec.StepTokensNext | src/NTextCat/CharacterNGramExtractor.cs:270-290 | windows 0..j emit what windows 0..j-1 emit, then what window j emits |
| NGramSpec.GramsSnoc | src/NTextCat/CharacterNGramExtractor.cs:267-291 | processing one more character appends what the windows emit for it |
| NGramSpec.StepTokensWellFormed | src/NTextCat/CharacterNGramExtractor.cs:270-289 | every token emitted for a prefix of a padded word has 1 to n characters, is never the lone `_`, and has letters strictly inside |
| NGramSpec.GramsWellFormed | src/NTextCat/CharacterNGramExtractor.cs:267-291 | the same for all the tokens of a padded word |
| NGramSpec.AllGramsWellFormed | src/NTextCat/CharacterNGramExtractor.cs:212-221 | the same for the tokens of any list of words |
| NGramSpec.FeaturesWellFormed | src/NTextCat/CharacterNGramExtractor.cs:162-232 | every token of the output has length 1..maxNGramLength, is never the lone `_`, and (when `_` is not a letter) carries `_` only as its first or last character, so no token spans two words |
| NGramSpec.AllGramsSnoc | src/NTextCat/CharacterNGramExtractor.cs:212-221 | one more word appends the n-grams of its padded form |
| NGramSpec.EmittedSplit | src/NTextCat/CharacterNGramExtractor.cs:212-213 | what has been emitted is the n-grams of the closed words, then those of the pending padded word |
| NGramSpec.PendingWordSnoc | src/NTextCat/CharacterNGramExtractor.cs:184-210 | a letter opens or extends the pending word by what it queues (`_` and the letter, or the letter); a separator leaves no pending word |
| NGramSpec.EmittedSnoc | src/NTextCat/CharacterNGramExtractor.cs:184-221 | after one more character, what has been emitted grows by the n-grams of the characters it queues |
| NGramSpec.EmittedAppend | src/NTextCat/CharacterNGramExtractor.cs:212-213 | if the drained characters emit what they add to the pending word, the output after s + [c] is the output after s followed by them |
| NGramSpec.EmittedFlushed | src/NTextCat/CharacterNGramExtractor.cs:225-231 | flushing an open word with `_` completes the output to the n-grams of all words |
| NGramSpec.FlushOpenWord | src/NTextCat/CharacterNGramExtractor.cs:225-231 | with no open word the output is already complete; otherwise the n-grams of the open word closed by a synthesized `_` complete it |
| NGramExample.ExampleCut | src/NTextCat/CharacterNGramExtractor.cs:177-180 | three characters that end no line are all read under any positive limit |
| NGramExample.StepTokens3 | src/NTextCat/CharacterNGramExtractor.cs:270-290 | with three windows, the step emits what windows 0, 1 and 2 emit, in that order |
| NGramExample.ExampleSteps | src/NTextCat/CharacterNGramExtractor.cs:270-290 | the tokens each character of `_abc_` releases from windows of size 1, 2 and 3 |
| NGramExample.GramsThen | src/NTextCat/CharacterNGramExtractor.cs:267-291 | one step of the example: the trigram output of q + [c] |
| NGramExample.ExampleGrams | src/NTextCat/CharacterNGramExtractor.cs:265-292 | the padded word `_abc_` gives a, _a, b, ab, _ab, c, bc, abc, c_, bc_ |
| NGramExample.Example | src/NTextCat/CharacterNGramExtractor.cs:27-36 | the features of the text "abc" with trigrams are those ten n-grams, in that order |
| SeparatedExtractor.GetFeaturesAlreadyUnderscoreSeparated | src/NTextCat/CharacterNGramExtractor.cs:85-153 | succeeds exactly when the text read before the limit is empty or starts and ends with `_`, and then its slices are the `Features` of that text with `_` the only separator; otherwise it throws IndexOutOfRange (first word at index -1, or an open word at the end of the text) or InvalidOperation (open word cut by the line limit), after the features of the earlier words |
| SeparatedExtractor.ReadUntilLimit | src/NTextCat/CharacterNGramExtractor.cs:93-145 | the loop either throws at the first character, which then opens a word, with nothing produced, or reads exactly up to the cut and produces what the closed form emits, with `_` as the only separator, for that prefix |
| SeparatedExtractor.ThrownAtStart | src/NTextCat/CharacterNGramExtractor.cs:118-131 | a first character that opens a word makes the whole call throw IndexOutOfRange with no features |
| SeparatedExtractor.EndedOutsideWord | src/NTextCat/CharacterNGramExtractor.cs:145-147 | reading that stops outside a word succeeds with all features |
| SeparatedExtractor.EndedInWord | src/NTextCat/CharacterNGramExtractor.cs:147-150 | a word still open where reading stops makes the closing Enqueue throw: IndexOutOfRange at the end of the text, InvalidOperation at a line break |
| SeparatedExtractor.ReadStep | src/NTextCat/CharacterNGramExtractor.cs:102-142 | the loop body, dispatching on insideWord as at :104 and :119: it throws exactly at position 0 with a letter, with the output unchanged; otherwise the queue is drained, the windows hold the new pending word and the output extends to what the closed form emits, with `_` as the only separator, for text[..i+1] |
| SeparatedExtractor.ReadInWord | src/NTextCat/CharacterNGramExtractor.cs:104-117 | inside a word the character (or the closing `_`) is queued and drained; the output extends as the closed form does with `_` as the only separator |
| SeparatedExtractor.ReadOutsideWord | src/NTextCat/CharacterNGramExtractor.cs:118-131 | outside a word `_` is skipped and a letter queues `_` and itself, which throws only at position 0 |
| SeparatedExtractor.QueueInWord | src/NTextCat/CharacterNGramExtractor.cs:104-117 | inside a word, `_` ends it (and requests clearing) and any other character extends it; both enqueues pass the check |
| SeparatedExtractor.QueueOutsideWord | src/NTextCat/CharacterNGramExtractor.cs:118-131 | outside a word, a letter moves the queue start to i-1 and enqueues `_` and itself; the first enqueue throws IndexOutOfRange exactly when i = 0 |
| SeparatedExtractor.DrainRead | src/NTextCat/CharacterNGramExtractor.cs:133-142 | draining after a character leaves the queue empty, the windows at the pending word (emptied after a word ends) and the output extended to what the closed form emits, with `_` as the only separator, for text[..i+1] |
| SeparatedExtractor.Drain | src/NTextCat/CharacterNGramExtractor.cs:133-142 | the queue is drained through the windows, which are cleared when a word has ended |
| SeparatedExtractor.ReadNext | src/NTextCat/CharacterNGramExtractor.cs:133-134 | the features drained for position i extend the closed form's output, with `_` as the only separator, from text[..i] to text[..i+1] |
| SeparatedExtractor.QueuedInWord | src/NTextCat/CharacterNGramExtractor.cs:104-117 | inside a word, the queued character continues the pending word in the text |
| SeparatedExtractor.InWordFeeds | src/NTextCat/CharacterNGramExtractor.cs:114-116 | the character queued inside a word is the next character of the pending slice |
| SeparatedExtractor.QueuedOutside | src/NTextCat/CharacterNGramExtractor.cs:118-131 | outside a word `_` queues nothing, and a letter at i > 0 follows a `_` in the text, so `_` and the letter are the slice text[i-1..i+1] |
| SeparatedExtractor.PendingSlice | src/NTextCat/CharacterNGramExtractor.cs:85-153 | when the text starts with `_`, the pending padded word is the slice of the text just before position i |
| SeparatedExtractor.UpdateAndProduceNgrams | src/NTextCat/CharacterNGramExtractor.cs:235-263 | the queue is emptied, its start advanced past what it held, the windows hold the pending slice and the features complete its n-grams |
| SeparatedExtractor.CompleteNext | src/NTextCat/CharacterNGramExtractor.cs:237-261 | one character processed extends the completed n-grams by one position of the text |
| SeparatedExtractor.ProcessNext | src/NTextCat/CharacterNGramExtractor.cs:239-261 | dequeuing advances the queue by one and the windows emit `StepTokens` for the slice that ends at that character |
| SeparatedExtractor.PushThroughQueues | src/NTextCat/CharacterNGramExtractor.cs:240-261 | one character through every window in ascending order: each window ends at the new position and the features are `StepTokens` |
| SeparatedExtractor.SlideAt | src/NTextCat/CharacterNGramExtractor.cs:242-260 | window j advances and its emission extends the step's output; windows before j have advanced, those after have not |
| SeparatedExtractor.SlideQueue | src/NTextCat/CharacterNGramExtractor.cs:242-260 | window j takes the character and emits what the closed form says window j emits |
| SeparatedExtractor.AdvanceWindow | src/NTextCat/CharacterNGramExtractor.cs:244-247 | drop when full, restart at the character when empty, enqueue: the window still covers the last j+1 characters, and the enqueue check always passes |
| SeparatedExtractor.Emission | src/NTextCat/CharacterNGramExtractor.cs:249-260 | window 0 emits its one-character slice unless it is `_`; window j >= 1 emits its slice when full |
| SeparatedExtractor.EmitStep | src/NTextCat/CharacterNGramExtractor.cs:240-261 | window j's emission extends what windows 0..j-1 emitted |
| SeparatedExtractor.WindowContents | src/NTextCat/CharacterNGramExtractor.cs:72-75 | a window's slice is the last j+1 characters of the part of the word processed |
| SeparatedExtractor.WindowsSplitAll | src/NTextCat/CharacterNGramExtractor.cs:240 | the recursive statement about windows k.. of the loop over j is the quantified one |
| SeparatedExtractor.NewWindows | src/NTextCat/CharacterNGramExtractor.cs:88 | maxNGramLength fresh, distinct, empty windows over the text |
| SeparatedExtractor.ClearAll | src/NTextCat/CharacterNGramExtractor.cs:136-142 | every window is emptied and keeps its start |
| SeparatedExtractor.Rebase | src/NTextCat/CharacterNGramExtractor.cs:246 | empty windows can be placed at any position, as the source restarts them at the next character |
| SeparatedExtractor.CompletesNothing | src/NTextCat/CharacterNGramExtractor.cs:237 | before anything has been processed, nothing has been completed |
| SeparatedExtractor.GramsStepAt | src/NTextCat/CharacterNGramExtractor.cs:237-261 | the features of one more character of the text extend the completed n-grams |
| SeparatedExtractor.GramsStep | src/NTextCat/CharacterNGramExtractor.cs:237-261 | the same for any padded word q and character c |
| SeparatedExtractor.Slices | src/NTextCat/CharacterNGramExtractor.cs:249-260 | there is one slice per feature |
| SeparatedExtractor.SlicesAppend | src/NTextCat/CharacterNGramExtractor.cs:133-134 | the slices of two lists of features, one after the other |
| SeparatedExtractor.NotBoundary | src/NTextCat/CharacterNGramExtractor.cs:104-121 | the variant's word test: a character ends or skips a word exactly when it is `_` |
| SeparatedExtractor.CharQueue.ToValueString | src/NTextCat/CharacterNGramExtractor.cs:72-75 | the queue's contents are the Count characters of the text from Start on |
| SeparatedExtractor.CharQueue.constructor | src/NTextCat/CharacterNGramExtractor.cs:88 | a queue over the text, empty at position 0 |
| SeparatedExtractor.CharQueue.Clear | src/NTextCat/CharacterNGramExtractor.cs:56-59 | the count becomes 0 and the start is kept |
| SeparatedExtractor.CharQueue.Dequeue | src/NTextCat/CharacterNGramExtractor.cs:61-65 | returns the character of the text at the old start, whatever the count, advances the start by one and shrinks the count by one; on a valid non-empty queue that is the oldest character and the rest remains |
| SeparatedExtractor.CharQueue.Peek | src/NTextCat/CharacterNGramExtractor.cs:67-70 | the oldest character of a non-empty queue |
| SeparatedExtractor.CharQueue.Enqueue | src/NTextCat/CharacterNGramExtractor.cs:77-82 | succeeds exactly when the text holds the character at Start+Count, and then the slice grows by it; an index outside the text throws IndexOutOfRange, another character InvalidOperation, and the queue is unchanged |
| ProfileFactory.Create | src/NTextCat/BasicProfileFactoryBase.cs:49-52 | the models go to the abstract Create with exactly the factory's four stored settings |
| ProfileFactory.Load | src/NTextCat/BasicProfileFactoryBase.cs:143-153 | the kept models and the persisted maxNGramLength and maximumSizeOfDistribution go to Create, with the factory's threshold and line limit |
| ProfileFactory.Where | src/NTextCat/BasicProfileFactoryBase.cs:150 | filtering never adds models |
| ProfileFactory.WhereSnoc | src/NTextCat/BasicProfileFactoryBase.cs:197 | a model is appended after the earlier ones exactly when the filter keeps it |
| ProfileFactory.WhereSelects | src/NTextCat/BasicProfileFactoryBase.cs:197 | a model is kept exactly when it was read and the filter accepts it |
| ProfileFactory.WhereKeepsAll | src/NTextCat/BasicProfileFactoryBase.cs:157 | the default filter keeps every model, in order |
| ProfileFactory.ItemReader.constructor | src/NTextCat/BasicProfileFactoryBase.cs:161 | a reader at the start of the stream |
| ProfileFactory.ItemReader.ReadInt32 | src/NTextCat/BasicProfileFactoryBase.cs:166 | returns the Int32 at the cursor and advances by one, or fails (end of stream, wrong item) without advancing |
| ProfileFactory.ItemReader.ReadString | src/NTextCat/BasicProfileFactoryBase.cs:174 | the same for a string |
| ProfileFactory.ReadEvents | src/NTextCat/BasicProfileFactoryBase.cs:186-192 | reads exactly `count` (token, occurrences) pairs, in order, and stops after them, or fails as the format does |
| ProfileFactory.PairRead | src/NTextCat/BasicProfileFactoryBase.cs:188-189 | a pair that cannot be read makes all the pairs fail with its error |
| ProfileFactory.PairTaken | src/NTextCat/BasicProfileFactoryBase.cs:188-190 | a pair read joins the events read so far |
| ProfileFactory.PairsDone | src/NTextCat/BasicProfileFactoryBase.cs:186 | once no pair is left, the events read are all the pairs |
| ProfileFactory.ReadLanguageModel | src/NTextCat/BasicProfileFactoryBase.cs:174-194 | reads the two codes, the noise counters, the count and the pairs, and builds the model as the format does (noise applied after the events, empty metadata) |
| ProfileFactory.ReadModels | src/NTextCat/BasicProfileFactoryBase.cs:170-198 | the while (true) loop returns the filtered list of the models the format reads, in stream order, or its failure; rejected models are still read through |
| ProfileFactory.MarkerRead | src/NTextCat/BasicProfileFactoryBase.cs:172 | a marker that cannot be read fails the list; a marker other than 1 ends it right after itself |
| ProfileFactory.ModelRead | src/NTextCat/BasicProfileFactoryBase.cs:174-194 | a model that cannot be read after a marker 1 fails the whole list |
| ProfileFactory.ModelTaken | src/NTextCat/BasicProfileFactoryBase.cs:172-198 | a model read after a marker 1 joins the models read so far |
| ProfileFactory.LoadBinary | src/NTextCat/BasicProfileFactoryBase.cs:155-207 | the result is `Decode` of the stream followed by `Load` of the decoded profile: InvalidData on a wrong version, read errors as they occur, otherwise Create gets the kept models, the stream's two settings and the factory's threshold and line limit |
| ProfileFactory.VersionRejected | src/NTextCat/BasicProfileFactoryBase.cs:166 | a first Int32 other than 1 fails with InvalidData whatever follows |
| ProfileFactory.BinaryLoadsAsPersisted | src/NTextCat/BasicProfileFactoryBase.cs:155-207 | loading a written profile gives what Load gives for that profile |
| ProfileFactory.BinaryLoadsEveryModel | src/NTextCat/BasicProfileFactoryBase.cs:157 | without a filter, every written model reaches Create with the profile's settings |
| ProfileFactory.TruncatedRejected | src/NTextCat/BasicProfileFactoryBase.cs:163-201 | a stream cut before its end-of-list marker fails: nothing reaches Create |
| ProfileFormat.IntAt | src/NTextCat/BasicProfileFactoryBase.cs:166 | reading an Int32 succeeds exactly on an Int item and moves one position; past the end it fails with EndOfStream |
| ProfileFormat.StrAt | src/NTextCat/BasicProfileFactoryBase.cs:174 | the same for a string |
| ProfileFormat.Pairs | src/NTextCat/BasicProfileFactoryBase.cs:186-192 | count pairs read 2·count items; a count of zero or less reads nothing |
| ProfileFormat.PairsStep | src/NTextCat/BasicProfileFactoryBase.cs:188-190 | one pair is read in front of the remaining ones |
| ProfileFormat.Record | src/NTextCat/BasicProfileFactoryBase.cs:174-194 | a model body takes at least five items, and the model built has empty metadata and no names beyond the two codes |
| ProfileFormat.Records | src/NTextCat/BasicProfileFactoryBase.cs:170-198 | the list of models always consumes at least its end marker |
| ProfileFormat.RecordsStep | src/NTextCat/BasicProfileFactoryBase.cs:172-198 | a marker 1 and a model body put that model in front of the rest of the list |
| ProfileFormat.RecordsEnd | src/NTextCat/BasicProfileFactoryBase.cs:172 | any marker other than 1 ends the list |
| ProfileFormat.VersionCheckedFirst | src/NTextCat/BasicProfileFactoryBase.cs:166 | a first Int32 other than 1 is rejected before anything else is read |
| ProfileFormat.EncodePairs | src/NTextCat/BasicProfileFactoryBase.cs:186-192 | not a model of source code (the source has no binary writer; `SaveProfile` writes XML): the inverse of the pair loop, used by the round-trip lemmas; it puts two items per pair |
| ProfileFormat.EncodeModel | src/NTextCat/BasicProfileFactoryBase.cs:172-191 | not a model of source code: the inverse of the model read, used by the round-trip lemmas; a written model is its marker 1, five header items and its pairs |
| ProfileFormat.EncodeModels | src/NTextCat/BasicProfileFactoryBase.cs:170-198 | not a model of source code: the inverse of the model list read, used by the round-trip lemmas; each written model takes at least six items |
| ProfileFormat.Encode | src/NTextCat/BasicProfileFactoryBase.cs:166-172 | not a model of source code: the inverse of `LoadBinary`'s read, used by the round-trip lemmas; a written profile starts with the version 1 and ends with its end-of-list marker |
| ProfileFormat.PairsRoundTrip | src/NTextCat/BasicProfileFactoryBase.cs:186-192 | written pairs are read back exactly |
| ProfileFormat.RecordRoundTrip | src/NTextCat/BasicProfileFactoryBase.cs:174-194 | a written storable model is read back exactly |
| ProfileFormat.RecordsCons | src/NTextCat/BasicProfileFactoryBase.cs:170-198 | the first written model is read in front of the list that follows it |
| ProfileFormat.RecordsRoundTrip | src/NTextCat/BasicProfileFactoryBase.cs:170-198 | a written list of storable models is read back exactly, stopping after its end marker |
| ProfileFormat.WrittenFromEncoding | src/NTextCat/BasicProfileFactoryBase.cs:170-198 | the encoding of storable models is laid out model after model, then the marker |
| ProfileFormat.DecodeWritten | src/NTextCat/BasicProfileFactoryBase.cs:166-201 | a stream with the version, the two settings and a written list decodes to that profile |
| ProfileFormat.RoundTrip | src/NTextCat/BasicProfileFactoryBase.cs:155-207 | decoding a written profile of storable models, whatever follows it, gives the profile back and stops after its end marker |
| ProfileFormat.PairsTruncated | src/NTextCat/BasicProfileFactoryBase.cs:186-192 | pairs cut short fail with EndOfStream |
| ProfileFormat.RecordTruncated | src/NTextCat/BasicProfileFactoryBase.cs:174-191 | a model cut short fails with EndOfStream |
| ProfileFormat.RecordsTruncated | src/NTextCat/BasicProfileFactoryBase.cs:170-198 | a list of models cut before its end marker fails with EndOfStream |
| ProfileFormat.Decode | src/NTextCat/BasicProfileFactoryBase.cs:161-201 | a stream that decodes starts with the version 1 and holds at least the header and the end marker, and it is read no further than its end; an empty stream fails with EndOfStream |
| ProfileFormat.Truncated | src/NTextCat/BasicProfileFactoryBase.cs:161-201 | a written profile cut anywhere before its end marker fails with EndOfStream: no partial profile is read |

## Left out

- Char.IsLetter is the parameter `isLetter`: the Unicode tables are not part of this model.
- The 4096-character buffering of the TextReader overload is not modelled: the text is one sequence. The `break` at the line limit leaves only the current buffer. The counter never decreases, so every later buffer breaks at its first character, and the output is the same.
- Laziness is not modelled: the iterators are modelled as methods that return the whole sequence. The features yielded before an exception are returned with the failure.
- The long line counter and the Int32 values of the stream are unbounded integers: overflow is not modelled.
- SeparatedExtractor.GetFeaturesAlreadyUnderscoreSeparated: a unigram is recorded as the one-character slice it is cut from. The text of `ValueString.Substring(1)` comes from a library that is not part of this model.
- SeparatedExtractor.CharQueue.Enqueue, SeparatedExtractor.QueueOutsideWord, SeparatedExtractor.EndedInWord: these assume that the indexer of `ValueString` (Shaman.Runtime, not part of this model) throws IndexOutOfRange for any index outside [0, Length) of the string it views. `InnerString[Start + Count]` is read at index -1 when a word opens at position 0, and at index Length when a word is still open at the end of the text. For a `ValueString` that views a slice of a larger string, those reads might return a character of the larger string instead, and the outcome could differ.
- SeparatedExtractor.CharQueue.Dequeue and SeparatedExtractor.CharQueue.Peek require the start to lie inside the text. The source would throw IndexOutOfRange there, but no caller reaches that case.
- In the underscore variant, the array of windows is modelled as a sequence of distinct CharQueue objects. Only the queues' fields change, never the array itself.
- In the TextReader overload, each `Queue<char>` window is modelled as the sequence it holds, stored in an array.
- The byte layout of BinaryReader (little-endian Int32, length-prefixed UTF-8 strings) is not modelled: the stream is a sequence of Int32 and string items. An item of the wrong kind is reported as UnexpectedItem. A real reader would reinterpret the bytes.
- ProfileFactory.ReadLanguageModel: `Distribution.AddEvent` and `AddNoise` come from a library that is not part of this model. The events are kept in the order they were added, repeated tokens included, along with the two noise counters.
- XmlProfilePersister.Load is not part of this model. Load takes the profile it returns as a parameter.
- The abstract `Create` with five arguments, implemented by the concrete factories, is represented by the record of its arguments.
- Train, TrainModels, TrainModel, TrainAndSave, SaveProfile, GetSetting, the parameterless constructor and the file-path Load overloads are not modelled. They do file and configuration I/O, parallel training, or call the NClassify library, which is not part of this model.
- The filter is a pure function: its side effects, and the order in which it is called, are not modelled.
- Disposing the BinaryReader and its stream is not modelled.
