/**
 * The streaming character n-gram extractor (the TextReader overload of GetFeatures and
 * its window update), proved to produce exactly the closed form of NGramSpec.
 *
 * Char.IsLetter is the parameter isLetter: the Unicode tables are not part of this model.
 */
module NGramExtractor {
  import opened Wrappers
  import opened NGramSpec

  /** The default line limit, long.MaxValue. */
  const LongMaxValue: int := 0x7FFF_FFFF_FFFF_FFFF

  type PositiveInt = n: int | n > 0 witness 1

  /** An extractor's settings; both are fixed when it is constructed. */
  datatype Extractor = Extractor(maxNGramLength: PositiveInt, maxLinesToRead: int)

  datatype ConfigError = ArgumentOutOfRange(paramName: string, message: string)

  /** The constructor: a non-positive maximum n-gram length is rejected, anything else is stored as given. */
  function NewExtractor(maxNGramLength: int, maxLinesToRead: int := LongMaxValue): (r: Result<Extractor, ConfigError>)
    ensures r.Failure? <==> maxNGramLength <= 0
    ensures r.Failure? ==> r.error.paramName == "maxNGramLength"
    ensures r.Success? ==> r.value.maxNGramLength == maxNGramLength && r.value.maxLinesToRead == maxLinesToRead
  {
    if maxNGramLength <= 0 then
      Failure(ArgumentOutOfRange("maxNGramLength", "should be positive integer number"))
    else
      Success(Extractor(maxNGramLength, maxLinesToRead))
  }

  predicate IsSeparator(c: char, isLetter: char -> bool): (r: bool)
    ensures r <==> Words([c], isLetter) == []
    ensures !r <==> Words([c], isLetter) == [[c]]
  {
    assert [c][..0] == [];
    assert Open([c], isLetter) == if isLetter(c) then [c] else [];
    assert Closed([c], isLetter) == [];
    !isLetter(c)
  }

  /** Window j holds the last j+1 characters of q, the part of the padded word processed so far. */
  ghost predicate WindowsHold(windows: array<seq<char>>, q: seq<char>)
    reads windows
  {
    forall j :: 0 <= j < windows.Length ==> windows[j] == Tail(q, j + 1)
  }

  /**
   * One window, of size j+1, takes one more character (one pass of the loop over j in
   * UpdateAndProduceNgrams): once it holds j+1 characters it drops the oldest, it takes
   * the new one, and then window 0 emits its character unless that is the boundary,
   * and a window j >= 1 emits its contents when it is full.
   */
  method SlideWindow(window: seq<char>, j: nat, processing: char, ghost done: seq<char>)
    returns (updated: seq<char>, emitted: seq<string>)
    requires window == Tail(done, j + 1)
    ensures updated == Tail(done + [processing], j + 1)
    ensures emitted == WindowToken(done + [processing], j)
  {
    updated := Advance(window, j, processing, done);
    emitted := WindowEmission(updated, j, done + [processing]);
  }

  /** The window drops its oldest character when it holds j+1 of them, then takes the new one. */
  method Advance(window: seq<char>, j: nat, processing: char, ghost done: seq<char>) returns (updated: seq<char>)
    requires window == Tail(done, j + 1)
    ensures updated == Tail(done + [processing], j + 1)
  {
    updated := window;
    if |updated| > j {
      updated := updated[1..];
    }
    updated := updated + [processing];
    TailSnoc(done, processing, j);
  }

  /** What window j emits once it holds the last characters of q. */
  method WindowEmission(window: seq<char>, j: nat, ghost q: seq<char>) returns (emitted: seq<string>)
    requires q != [] && window == Tail(q, j + 1)
    ensures emitted == WindowToken(q, j)
  {
    TailToken(q, j);
    emitted := [];
    if j == 0 {
      var ch := window[0];
      if ch != Boundary {
        emitted := [[ch]];
      }
    } else if |window| > j {
      emitted := [window];
    }
  }

  /** A window that takes one more character drops its oldest one once it holds j+1. */
  lemma TailSnoc(q: seq<char>, c: char, j: nat)
    ensures Tail(q + [c], j + 1) == (if |q| > j then Tail(q, j + 1)[1..] else Tail(q, j + 1)) + [c]
  {
    if |q| > j {
      assert (q + [c])[|q| - j..] == q[|q| - j..] + [c];
    }
  }

  /** What window j emits, read off the window itself. */
  lemma TailToken(q: seq<char>, j: nat)
    requires q != []
    ensures j == 0 ==> Tail(q, 1) == [q[|q| - 1]]
    ensures |q| > j ==> Tail(q, j + 1) == q[|q| - 1 - j..]
  {
  }

  /**
   * Windows k .. Length-1 of the loop over the windows: those before j hold the tail of
   * next, the word with the new character, the others still the tail of done.
   */
  ghost predicate WindowsSplit(windows: array<seq<char>>, done: seq<char>, next: seq<char>, j: int, k: nat)
    reads windows
    decreases windows.Length - k
  {
    k < windows.Length ==>
      windows[k] == Tail(if k < j then next else done, k + 1)
      && WindowsSplit(windows, done, next, j, k + 1)
  }

  /** WindowsSplit from k on is the quantified statement about windows k .. Length-1. */
  lemma {:induction false} WindowsSplitAll(windows: array<seq<char>>, done: seq<char>, next: seq<char>, j: int, k: nat)
    requires k <= windows.Length
    ensures WindowsSplit(windows, done, next, j, k)
      <==> forall m :: k <= m < windows.Length ==> windows[m] == Tail(if m < j then next else done, m + 1)
    decreases windows.Length - k
  {
    if k < windows.Length {
      WindowsSplitAll(windows, done, next, j, k + 1);
    }
  }

  /** One character through every window, in ascending order of j. */
  method PushThroughWindows(processing: char, windows: array<seq<char>>, ghost done: seq<char>)
    returns (tokens: seq<string>)
    requires WindowsHold(windows, done)
    modifies windows
    ensures WindowsHold(windows, done + [processing])
    ensures tokens == StepTokens(done + [processing], windows.Length)
  {
    var n := windows.Length;
    tokens := [];
    var j := 0;
    WindowsSplitAll(windows, done, done + [processing], 0, 0);
    while j < n
      invariant 0 <= j <= n
      invariant WindowsSplit(windows, done, done + [processing], j, 0)
      invariant tokens == StepTokens(done + [processing], j)
    {
      tokens := SlideAt(windows, j, processing, tokens, done);
      j := j + 1;
    }
    WindowsSplitAll(windows, done, done + [processing], n, 0);
  }

  /** Window j of the loop of PushThroughWindows takes the character; the other windows keep theirs. */
  method SlideAt(windows: array<seq<char>>, j: nat, processing: char, tokens: seq<string>, ghost done: seq<char>)
    returns (newTokens: seq<string>)
    requires j < windows.Length
    requires WindowsSplit(windows, done, done + [processing], j, 0)
    requires tokens == StepTokens(done + [processing], j)
    modifies windows
    ensures WindowsSplit(windows, done, done + [processing], j + 1, 0)
    ensures newTokens == StepTokens(done + [processing], j + 1)
  {
    WindowsSplitAll(windows, done, done + [processing], j, 0);
    var updated, emitted := SlideWindow(windows[j], j, processing, done);
    windows[j] := updated;
    WindowsSplitAll(windows, done, done + [processing], j + 1, 0);
    StepTokensNext(done + [processing], j);
    newTokens := tokens + emitted;
  }

  /** Drains the queue of pending characters through the windows, one character after the other. */
  method UpdateAndProduceNgrams(charsToProcess: seq<char>, windows: array<seq<char>>, ghost q: seq<char>)
    returns (tokens: seq<string>)
    requires WindowsHold(windows, q)
    modifies windows
    ensures WindowsHold(windows, q + charsToProcess)
    ensures Grams(q, windows.Length) + tokens == Grams(q + charsToProcess, windows.Length)
  {
    var n := windows.Length;
    var queue := charsToProcess;
    ghost var done := q;
    tokens := [];
    while queue != []
      invariant done + queue == q + charsToProcess
      invariant WindowsHold(windows, done)
      invariant Grams(q, n) + tokens == Grams(done, n)
      decreases |queue|
    {
      queue, tokens, done := TakeNext(queue, windows, tokens, q, done);
    }
    assert done == q + charsToProcess;
  }

  /** One pass of the loop of UpdateAndProduceNgrams: the first pending character goes through the windows. */
  method TakeNext(queue: seq<char>, windows: array<seq<char>>, tokens: seq<string>, ghost q: seq<char>, ghost done: seq<char>)
    returns (rest: seq<char>, newTokens: seq<string>, ghost newDone: seq<char>)
    requires queue != []
    requires WindowsHold(windows, done)
    requires Grams(q, windows.Length) + tokens == Grams(done, windows.Length)
    modifies windows
    ensures newDone + rest == done + queue && |rest| < |queue|
    ensures WindowsHold(windows, newDone)
    ensures Grams(q, windows.Length) + newTokens == Grams(newDone, windows.Length)
  {
    var processing := queue[0];
    rest := queue[1..];
    var produced := PushThroughWindows(processing, windows, done);
    TakenGrams(q, done, processing, windows.Length, tokens, produced);
    newTokens := tokens + produced;
    newDone := done + [processing];
    TakenQueue(done, queue);
  }

  /** The n-grams produced so far, extended by what one more character releases. */
  lemma TakenGrams(q: seq<char>, done: seq<char>, c: char, n: nat, tokens: seq<string>, produced: seq<string>)
    requires Grams(q, n) + tokens == Grams(done, n)
    requires produced == StepTokens(done + [c], n)
    ensures Grams(q, n) + (tokens + produced) == Grams(done + [c], n)
  {
    GramsSnoc(done, c, n);
    AppendAssociates(Grams(q, n), tokens, produced);
  }

  /** Taking the first pending character moves it from the queue to what has been processed. */
  lemma TakenQueue(done: seq<char>, queue: seq<char>)
    requires queue != []
    ensures (done + [queue[0]]) + queue[1..] == done + queue
  {
    assert queue == [queue[0]] + queue[1..];
  }

  /**
   * The body of the loop of GetFeatures for one character below the line limit: a
   * letter outside a word opens one ("_" and the letter are queued), a letter inside a
   * word is queued, a separator inside a word closes it (a "_" is queued and all windows
   * are cleared once it has been processed), and a separator outside a word is skipped.
   */
  method ReadCharacter(currentByte: char, insideWord: bool, currentNgrams: array<seq<char>>,
                       isLetter: char -> bool, ghost s: seq<char>)
    returns (nowInsideWord: bool, produced: seq<string>)
    requires insideWord == (Open(s, isLetter) != [])
    requires WindowsHold(currentNgrams, PendingWord(s, isLetter))
    modifies currentNgrams
    ensures nowInsideWord == (Open(s + [currentByte], isLetter) != [])
    ensures WindowsHold(currentNgrams, PendingWord(s + [currentByte], isLetter))
    ensures Emitted(s, currentNgrams.Length, isLetter) + produced
      == Emitted(s + [currentByte], currentNgrams.Length, isLetter)
  {
    nowInsideWord := insideWord;
    var cleanNgrams := false;
    var charsToProcess: seq<char> := [];
    if insideWord {
      if IsSeparator(currentByte, isLetter) {
        nowInsideWord := false;
        charsToProcess := charsToProcess + [Boundary];
        cleanNgrams := true;
      } else {
        charsToProcess := charsToProcess + [currentByte];
      }
    } else {
      if IsSeparator(currentByte, isLetter) {
        // skip it
      } else {
        nowInsideWord := true;
        charsToProcess := charsToProcess + [Boundary, currentByte];
      }
    }
    assert charsToProcess == Fed(s, currentByte, isLetter);
    produced := UpdateAndProduceNgrams(charsToProcess, currentNgrams, PendingWord(s, isLetter));
    EmittedAppend(s, currentByte, currentNgrams.Length, isLetter, produced);
    if cleanNgrams {
      forall j | 0 <= j < currentNgrams.Length {
        currentNgrams[j] := [];
      }
    }
    PendingWordSnoc(s, currentByte, isLetter);
  }

  /**
   * GetFeatures over a TextReader, reading the whole text as one sequence.  The result
   * is the closed form: the n-grams of every padded word of the text read before the
   * line limit, word after word.
   */
  method GetFeatures(extractor: Extractor, text: seq<char>, isLetter: char -> bool) returns (tokens: seq<string>)
    ensures tokens == Features(text, extractor.maxNGramLength, extractor.maxLinesToRead, isLetter)
  {
    var n := extractor.maxNGramLength;
    var limit := extractor.maxLinesToRead;
    var numberOfLinesRead := 0;
    var currentNgrams := new seq<char>[n](_ => []);
    var insideWord := false;
    var previousByte := NoChar;
    tokens := [];
    var i := 0;
    ghost var s: seq<char> := [];  // the characters read so far
    CountedStart(text, limit);
    while i < |text|
      invariant 0 <= i <= |text| && s == text[..i]
      invariant CutFrom(text, limit, i) == Cut(text, limit)
      invariant numberOfLinesRead == LinesRead(s) && previousByte == Previous(text, i)
      invariant insideWord == (Open(s, isLetter) != [])
      invariant currentNgrams.Length == n
      invariant WindowsHold(currentNgrams, PendingWord(s, isLetter))
      invariant tokens == Emitted(s, n, isLetter)
    {
      var currentByte := text[i];
      ghost var before := numberOfLinesRead;
      if currentByte == CarriageReturn || (currentByte == LineFeed && previousByte != CarriageReturn) {
        numberOfLinesRead := numberOfLinesRead + 1;
      }
      CountedStep(text, limit, i, before, previousByte, numberOfLinesRead);
      if numberOfLinesRead >= limit {
        break;
      }
      var produced;
      insideWord, produced := ReadCharacter(currentByte, insideWord, currentNgrams, isLetter, s);
      tokens := tokens + produced;
      PrefixSnoc(text, i);
      previousByte := currentByte;
      i := i + 1;
      s := s + [currentByte];
    }
    assert Cut(text, limit) == i;
    FlushOpenWord(s, n, isLetter);
    if insideWord {
      var produced := UpdateAndProduceNgrams([Boundary], currentNgrams, PendingWord(s, isLetter));
      EmittedFlushed(s, n, isLetter, produced);
      tokens := tokens + produced;
    }
  }

  /** The string and char[] overloads read the same characters through a StringReader. */
  method GetFeaturesOfChars(extractor: Extractor, text: array<char>, isLetter: char -> bool) returns (tokens: seq<string>)
    ensures tokens == Features(text[..], extractor.maxNGramLength, extractor.maxLinesToRead, isLetter)
  {
    tokens := GetFeatures(extractor, text[..], isLetter);
  }
}
