/**
 * GetFeaturesAlreadyUnderscoreSeparated: the variant of the extractor whose only
 * separator is "_" and whose windows are not copies but index ranges (CharQueue) over
 * the text itself, so that every n-gram is a slice of the text.
 *
 * A CharQueue only accepts the character that already stands in its text just after
 * its range; every enqueue checks this and throws otherwise.  The windows always pass
 * the check.  The queue of pending characters passes it except in two cases, where the
 * method throws: a word that starts at the very first character (the "_" before it would
 * be at index -1), and a word still open where reading stops (the closing "_" would be
 * the character after the text read, which is past the end or a line break).
 */
module SeparatedExtractor {
  import opened Wrappers
  import opened NGramSpec
  import opened NGramExtractor

  /** The two exceptions a CharQueue can throw: an index outside the text, a character that does not match it. */
  datatype QueueError = IndexOutOfRange | InvalidOperation

  /**
   * A feature cut out of the text.  An n-gram of two or more characters is the slice
   * held by its window.  A unigram is ValueString.Substring(1) of the one-character slice
   * held by window 0; only that slice is recorded here.
   */
  datatype Feature = Unigram(window: string) | NGram(window: string)

  /** The slices the features were cut from, in order. */
  function Slices(fs: seq<Feature>): (r: seq<string>)
    ensures |r| == |fs|
  {
    if fs == [] then [] else [fs[0].window] + Slices(fs[1..])
  }

  /** The slices of two lists of features, one after the other. */
  lemma {:induction false} SlicesAppend(a: seq<Feature>, b: seq<Feature>)
    ensures Slices(a + b) == Slices(a) + Slices(b)
  {
    if a != [] {
      assert (a + b)[1..] == a[1..] + b;
      SlicesAppend(a[1..], b);
    } else {
      assert a + b == b;
    }
  }

  /** In this variant a letter is anything but the boundary. */
  predicate NotBoundary(c: char): (r: bool)
    ensures !r <==> c == '_'
  {
    c != Boundary
  }

  /** A window or a queue of pending characters: the range [start, start + count) of a fixed text. */
  class CharQueue {
    const inner: seq<char>
    var start: int
    var count: int

    constructor(text: seq<char>)
      ensures inner == text && start == 0 && count == 0
    {
      inner := text;
      start := 0;
      count := 0;
    }

    /** The range lies inside the text. */
    ghost predicate Valid()
      reads this
    {
      0 <= start && 0 <= count && start + count <= |inner|
    }

    /** The characters in the queue, oldest first: the slice of the text it covers. */
    function ToValueString(): (s: string)
      reads this
      requires Valid()
      ensures |s| == count
      ensures forall k :: 0 <= k < count ==> s[k] == inner[start + k]
    {
      inner[start..start + count]
    }

    method Clear()
      modifies this
      ensures count == 0 && start == old(start)
      ensures old(Valid()) ==> Valid() && ToValueString() == []
    {
      count := 0;
    }

    /** Removes and returns the oldest character. */
    method Dequeue() returns (c: char)
      requires 0 <= start < |inner|
      modifies this
      ensures start == old(start) + 1 && count == old(count) - 1
      ensures c == inner[old(start)]
      ensures old(Valid()) && old(count) > 0 ==>
        Valid() && c == old(ToValueString())[0] && ToValueString() == old(ToValueString())[1..]
    {
      count := count - 1;
      c := inner[start];
      start := start + 1;
    }

    /** The oldest character. */
    function Peek(): (c: char)
      reads this
      requires 0 <= start < |inner|
      ensures Valid() && count > 0 ==> c == ToValueString()[0]
    {
      inner[start]
    }

    /**
     * Appends v, which must be the character of the text just after the range: an index
     * outside the text throws IndexOutOfRange, another character InvalidOperation.
     */
    method Enqueue(v: char) returns (error: Option<QueueError>)
      modifies this
      ensures start == old(start)
      ensures error.None? <==> 0 <= start + old(count) < |inner| && inner[start + old(count)] == v
      ensures error == Some(IndexOutOfRange) <==> !(0 <= start + old(count) < |inner|)
      ensures count == old(count) + (if error.None? then 1 else 0)
      ensures old(Valid()) && error.None? ==> Valid() && ToValueString() == old(ToValueString()) + [v]
    {
      if !(0 <= start + count < |inner|) {
        return Some(IndexOutOfRange);
      }
      if inner[start + count] != v {
        return Some(InvalidOperation);
      }
      count := count + 1;
      error := None;
    }
  }

  /**
   * Window j over the text, when the characters text[qStart..end] of the padded word
   * have been processed: it holds the last j+1 of them, ending at end.
   */
  ghost predicate WindowAt(w: CharQueue, j: nat, text: seq<char>, qStart: int, end: int)
    reads w
  {
    w.inner == text && 0 <= qStart <= end <= |text| && w.Valid()
    && w.count == Min(j + 1, end - qStart)
    && (w.count > 0 ==> w.start + w.count == end)
  }

  /** The characters a window holds are the last j+1 of the slice processed. */
  lemma WindowContents(w: CharQueue, j: nat, text: seq<char>, qStart: int, end: int)
    requires WindowAt(w, j, text, qStart, end)
    ensures w.ToValueString() == Tail(text[qStart..end], j + 1)
  {
  }

  lemma SliceSnoc(text: seq<char>, a: int, b: int)
    requires 0 <= a <= b < |text|
    ensures text[a..b] + [text[b]] == text[a..b + 1]
  {
  }

  /** Every window j holds the last j+1 characters of text[qStart..end]. */
  ghost predicate WindowsAt(windows: seq<CharQueue>, text: seq<char>, qStart: int, end: int)
    reads windows
  {
    forall j :: 0 <= j < |windows| ==> WindowAt(windows[j], j, text, qStart, end)
  }

  /**
   * Windows k .. |windows|-1 of the loop over the windows: those before j have taken the
   * character at position end, the others have not yet.
   */
  ghost predicate WindowsSplit(windows: seq<CharQueue>, text: seq<char>, qStart: int, end: int, j: int, k: nat)
    reads windows
    decreases |windows| - k
  {
    k < |windows| ==>
      WindowAt(windows[k], k, text, qStart, if k < j then end + 1 else end)
      && WindowsSplit(windows, text, qStart, end, j, k + 1)
  }

  /** WindowsSplit from k on is the quantified statement about windows k .. |windows|-1. */
  lemma {:induction false} WindowsSplitAll(windows: seq<CharQueue>, text: seq<char>, qStart: int, end: int, j: int, k: nat)
    requires k <= |windows|
    ensures WindowsSplit(windows, text, qStart, end, j, k)
      <==> forall m :: k <= m < |windows| ==> WindowAt(windows[m], m, text, qStart, if m < j then end + 1 else end)
    decreases |windows| - k
  {
    if k < |windows| {
      WindowsSplitAll(windows, text, qStart, end, j, k + 1);
    }
  }

  /** The windows are distinct objects. */
  ghost predicate Distinct(windows: seq<CharQueue>)
  {
    forall j, k :: 0 <= j < k < |windows| ==> windows[j] != windows[k]
  }

  /** n empty windows over the text. */
  method NewWindows(text: seq<char>, n: nat) returns (windows: seq<CharQueue>)
    ensures |windows| == n && Distinct(windows)
    ensures forall j :: 0 <= j < n ==> fresh(windows[j])
    ensures WindowsAt(windows, text, 0, 0)
  {
    windows := [];
    while |windows| < n
      invariant |windows| <= n
      invariant forall k :: 0 <= k < |windows| ==> fresh(windows[k]) && windows[k].inner == text
      invariant forall k :: 0 <= k < |windows| ==> windows[k].start == 0 && windows[k].count == 0
      invariant Distinct(windows)
    {
      var window := new CharQueue(text);
      windows := windows + [window];
    }
  }

  /**
   * One window, of size j+1, takes the character at position end: it drops its oldest
   * character when full, restarts at end when empty, and extends its range by one, which
   * always passes the check of Enqueue.
   */
  method AdvanceWindow(w: CharQueue, j: nat, processing: char, processingStart: int,
                       ghost text: seq<char>, ghost qStart: int, ghost end: int)
    requires WindowAt(w, j, text, qStart, end)
    requires end < |text| && text[end] == processing && processingStart == end + 1
    modifies w
    ensures WindowAt(w, j, text, qStart, end + 1)
  {
    if w.count > j {
      var dropped := w.Dequeue();
    }
    if w.count == 0 {
      w.start := processingStart - 1;
    }
    var error := w.Enqueue(processing);
    assert error.None?;
  }

  /**
   * One pass of the loop over the windows: window j advances, then window 0 emits a
   * unigram unless the character is the boundary, and a window j >= 1 emits its slice
   * when it is full.
   */
  method SlideQueue(w: CharQueue, j: nat, processing: char, processingStart: int,
                    ghost text: seq<char>, ghost qStart: int, ghost end: int)
    returns (emitted: seq<Feature>)
    requires WindowAt(w, j, text, qStart, end)
    requires end < |text| && text[end] == processing && processingStart == end + 1
    modifies w
    ensures WindowAt(w, j, text, qStart, end + 1)
    ensures Slices(emitted) == WindowToken(text[qStart..end + 1], j)
  {
    AdvanceWindow(w, j, processing, processingStart, text, qStart, end);
    WindowContents(w, j, text, qStart, end + 1);
    emitted := Emission(w, j, text[qStart..end + 1]);
  }

  /** What window j emits once it holds the last characters of q. */
  method Emission(w: CharQueue, j: nat, ghost q: seq<char>) returns (emitted: seq<Feature>)
    requires w.Valid() && q != [] && w.count == Min(j + 1, |q|) && w.ToValueString() == Tail(q, j + 1)
    ensures Slices(emitted) == WindowToken(q, j)
  {
    emitted := [];
    if j == 0 {
      var ch := w.Peek();
      assert ch == q[|q| - 1];
      if ch != Boundary {
        assert w.ToValueString() == [q[|q| - 1]];
        emitted := [Unigram(w.ToValueString())];
        assert Slices(emitted) == [[q[|q| - 1]]];
      }
    } else if w.count > j {
      assert w.ToValueString() == q[|q| - 1 - j..];
      emitted := [NGram(w.ToValueString())];
      assert Slices(emitted) == [q[|q| - 1 - j..]];
    }
  }

  /** The features produced are what windows 0 .. n-1 emit when the last character of q goes through them. */
  ghost predicate Emits(produced: seq<Feature>, q: seq<char>, n: nat)
  {
    q != [] && Slices(produced) == StepTokens(q, n)
  }

  /** The character at position end through every window, in ascending order of j. */
  method PushThroughQueues(processing: char, processingStart: int, windows: seq<CharQueue>,
                           ghost text: seq<char>, ghost qStart: int, ghost end: int)
    returns (tokens: seq<Feature>)
    requires 0 <= qStart <= end < |text| && text[end] == processing && processingStart == end + 1
    requires WindowsAt(windows, text, qStart, end) && Distinct(windows)
    modifies windows
    ensures WindowsAt(windows, text, qStart, end + 1)
    ensures Emits(tokens, text[qStart..end + 1], |windows|)
  {
    var n := |windows|;
    tokens := [];
    var j := 0;
    WindowsSplitAll(windows, text, qStart, end, 0, 0);
    while j < n
      invariant 0 <= j <= n
      invariant WindowsSplit(windows, text, qStart, end, j, 0)
      invariant Slices(tokens) == StepTokens(text[qStart..end + 1], j)
    {
      tokens := SlideAt(windows, j, processing, processingStart, tokens, text, qStart, end);
      j := j + 1;
    }
    WindowsSplitAll(windows, text, qStart, end, n, 0);
  }

  /** Window j of the loop of PushThroughQueues takes the character; the other windows keep theirs. */
  method SlideAt(windows: seq<CharQueue>, j: nat, processing: char, processingStart: int,
                 tokens: seq<Feature>, ghost text: seq<char>, ghost qStart: int, ghost end: int)
    returns (newTokens: seq<Feature>)
    requires j < |windows| && Distinct(windows)
    requires WindowsSplit(windows, text, qStart, end, j, 0)
    requires 0 <= qStart <= end < |text| && text[end] == processing && processingStart == end + 1
    requires Slices(tokens) == StepTokens(text[qStart..end + 1], j)
    modifies windows[j]
    ensures WindowsSplit(windows, text, qStart, end, j + 1, 0)
    ensures Slices(newTokens) == StepTokens(text[qStart..end + 1], j + 1)
  {
    WindowsSplitAll(windows, text, qStart, end, j, 0);
    var emitted := SlideQueue(windows[j], j, processing, processingStart, text, qStart, end);
    WindowsSplitAll(windows, text, qStart, end, j + 1, 0);
    EmitStep(tokens, emitted, text[qStart..end + 1], j);
    newTokens := tokens + emitted;
  }

  /** Window j's emission extends what windows 0 .. j-1 emitted. */
  lemma EmitStep(tokens: seq<Feature>, emitted: seq<Feature>, q: seq<char>, j: nat)
    requires q != [] && Slices(tokens) == StepTokens(q, j) && Slices(emitted) == WindowToken(q, j)
    ensures Slices(tokens + emitted) == StepTokens(q, j + 1)
  {
    StepTokensNext(q, j);
    SlicesAppend(tokens, emitted);
  }

  /** Drains the queue of pending characters through the windows, one character after the other. */
  method UpdateAndProduceNgrams(charsToProcess: CharQueue, windows: seq<CharQueue>, ghost qStart: int)
    returns (tokens: seq<Feature>)
    requires charsToProcess.Valid() && charsToProcess !in windows && Distinct(windows)
    requires 0 <= qStart <= charsToProcess.start && WindowsAt(windows, charsToProcess.inner, qStart, charsToProcess.start)
    modifies charsToProcess, windows
    ensures charsToProcess.count == 0 && charsToProcess.start == old(charsToProcess.start + charsToProcess.count)
    ensures WindowsAt(windows, charsToProcess.inner, qStart, charsToProcess.start)
    ensures Completes(charsToProcess.inner, qStart, old(charsToProcess.start), charsToProcess.start, |windows|, tokens)
  {
    var n := |windows|;
    ghost var text := charsToProcess.inner;
    ghost var first := charsToProcess.start;
    ghost var last := charsToProcess.start + charsToProcess.count;
    ghost var pos := first;
    tokens := [];
    CompletesNothing(text, qStart, first, n);
    while charsToProcess.count > 0
      invariant charsToProcess.Valid() && first <= charsToProcess.start
      invariant charsToProcess.start + charsToProcess.count == last
      invariant WindowsAt(windows, text, qStart, charsToProcess.start)
      invariant first <= pos == charsToProcess.start
      invariant Completes(text, qStart, first, pos, n, tokens)
      decreases charsToProcess.count
    {
      tokens := CompleteNext(charsToProcess, windows, tokens, text, qStart, first);
      pos := pos + 1;
    }
  }

  /** One pass of the loop of UpdateAndProduceNgrams: the oldest pending character goes through every window. */
  method ProcessNext(charsToProcess: CharQueue, windows: seq<CharQueue>, ghost qStart: int)
    returns (produced: seq<Feature>)
    requires charsToProcess.Valid() && charsToProcess.count > 0 && charsToProcess !in windows && Distinct(windows)
    requires 0 <= qStart <= charsToProcess.start && WindowsAt(windows, charsToProcess.inner, qStart, charsToProcess.start)
    modifies charsToProcess, windows
    ensures charsToProcess.Valid()
    ensures charsToProcess.start == old(charsToProcess.start) + 1 && charsToProcess.count == old(charsToProcess.count) - 1
    ensures WindowsAt(windows, charsToProcess.inner, qStart, charsToProcess.start)
    ensures Emits(produced, charsToProcess.inner[qStart..old(charsToProcess.start) + 1], |windows|)
  {
    ghost var end := charsToProcess.start;
    var processingByte := charsToProcess.Dequeue();
    produced := PushThroughQueues(processingByte, charsToProcess.start, windows, charsToProcess.inner, qStart, end);
  }

  /** ProcessNext, and the n-grams it completes. */
  method CompleteNext(charsToProcess: CharQueue, windows: seq<CharQueue>, tokens: seq<Feature>,
                      ghost text: seq<char>, ghost qStart: int, ghost first: int)
    returns (newTokens: seq<Feature>)
    requires charsToProcess.inner == text
    requires charsToProcess.Valid() && charsToProcess.count > 0 && charsToProcess !in windows && Distinct(windows)
    requires 0 <= qStart <= charsToProcess.start && WindowsAt(windows, text, qStart, charsToProcess.start)
    requires Completes(text, qStart, first, charsToProcess.start, |windows|, tokens)
    modifies charsToProcess, windows
    ensures charsToProcess.Valid()
    ensures charsToProcess.start == old(charsToProcess.start) + 1 && charsToProcess.count == old(charsToProcess.count) - 1
    ensures WindowsAt(windows, text, qStart, charsToProcess.start)
    ensures Completes(text, qStart, first, charsToProcess.start, |windows|, newTokens)
  {
    ghost var end := charsToProcess.start;
    var produced := ProcessNext(charsToProcess, windows, qStart);
    GramsStepAt(text, qStart, first, end, |windows|, tokens, produced);
    newTokens := tokens + produced;
  }

  /**
   * The tokens emitted while the characters text[first..end] went through the windows
   * complete the n-grams of the padded word text[qStart..first] to those of text[qStart..end].
   */
  ghost predicate Completes(text: seq<char>, qStart: int, first: int, end: int, n: nat, tokens: seq<Feature>)
  {
    0 <= qStart <= first <= end <= |text|
    && Grams(text[qStart..first], n) + Slices(tokens) == Grams(text[qStart..end], n)
  }

  /** Before any character has gone through the windows, nothing has been completed. */
  lemma CompletesNothing(text: seq<char>, qStart: int, first: int, n: nat)
    requires 0 <= qStart <= first <= |text|
    ensures Completes(text, qStart, first, first, n, [])
  {
    assert Slices([]) == [];
  }

  /** GramsStep for the slice of the text that ends at position end. */
  lemma GramsStepAt(text: seq<char>, qStart: int, first: int, end: int, n: nat, tokens: seq<Feature>, produced: seq<Feature>)
    requires end < |text| && Completes(text, qStart, first, end, n, tokens)
    requires Emits(produced, text[qStart..end + 1], n)
    ensures Completes(text, qStart, first, end + 1, n, tokens + produced)
  {
    SliceSnoc(text, qStart, end);
    GramsStep(Grams(text[qStart..first], n), text[qStart..end], text[end], n, tokens, produced);
  }

  /** The features of one more character of the padded word extend what has been emitted. */
  lemma GramsStep(before: seq<string>, q: seq<char>, c: char, n: nat, tokens: seq<Feature>, produced: seq<Feature>)
    requires before + Slices(tokens) == Grams(q, n)
    requires Slices(produced) == StepTokens(q + [c], n)
    ensures before + Slices(tokens + produced) == Grams(q + [c], n)
  {
    SlicesAppend(tokens, produced);
    GramsSnoc(q, c, n);
    AppendAssociates(before, Slices(tokens), Slices(produced));
  }

  /** Empties every window, keeping where each one starts. */
  method ClearAll(windows: seq<CharQueue>, ghost text: seq<char>, ghost qStart: int, ghost end: int)
    requires WindowsAt(windows, text, qStart, end) && Distinct(windows)
    modifies windows
    ensures WindowsAt(windows, text, end, end)
    ensures forall j :: 0 <= j < |windows| ==> windows[j].start == old(windows[j].start)
  {
    var j := 0;
    while j < |windows|
      invariant 0 <= j <= |windows|
      invariant forall k :: 0 <= k < |windows| ==> windows[k].start == old(windows[k].start)
      invariant forall k :: 0 <= k < j ==> WindowAt(windows[k], k, text, end, end)
      invariant forall k :: j <= k < |windows| ==> WindowAt(windows[k], k, text, qStart, end)
    {
      windows[j].Clear();
      j := j + 1;
    }
  }

  /** Windows that are all empty can be taken to sit at any position of the text. */
  lemma Rebase(windows: seq<CharQueue>, text: seq<char>, a: int, c: int)
    requires WindowsAt(windows, text, a, a) && 0 <= c <= |text|
    ensures WindowsAt(windows, text, c, c)
  {
  }

  /**
   * When the text read so far starts with "_", the padded word pending at position i
   * is the slice of the text just before i: the "_" before the open word, then the word.
   */
  lemma PendingSlice(text: seq<char>, i: nat)
    requires i <= |text| && (i > 0 ==> text[0] == Boundary)
    ensures |PendingWord(text[..i], NotBoundary)| <= i
    ensures PendingWord(text[..i], NotBoundary) == text[i - |PendingWord(text[..i], NotBoundary)|..i]
  {
    var s := text[..i];
    OpenIsLetterSuffix(s, NotBoundary);
    var o := Open(s, NotBoundary);
    if o != [] {
      assert o[0] == s[|s| - |o|];
      assert |o| < |s|;
      assert s[|s| - |o| - 1] == Boundary;
      assert [Boundary] + o == text[i - |o| - 1..i];
    }
  }

  /**
   * What the queue holds once the character at position i has been queued: the range
   * text[qStart..from] is the pending word before i, and text[from..to] is what the
   * character feeds to the windows.
   */
  ghost predicate Queued(text: seq<char>, i: int, qStart: int, from: int, to: int)
  {
    0 <= i < |text| && 0 <= qStart <= from <= to <= |text|
    && text[qStart..from] == PendingWord(text[..i], NotBoundary)
    && text[qStart..to] == PendingWord(text[..i], NotBoundary) + Fed(text[..i], text[i], NotBoundary)
  }

  /** The first half of the loop body inside a word: the character, or the "_" that ends the word, is queued. */
  method QueueInWord(currentByte: char, i: int, charsToProcess: CharQueue, ghost text: seq<char>, ghost pendingStart: int)
    returns (nowInsideWord: bool, cleanNgrams: bool)
    requires charsToProcess.inner == text
    requires 0 <= i < |text| && currentByte == text[i] && (i > 0 ==> text[0] == Boundary)
    requires Open(text[..i], NotBoundary) != []
    requires charsToProcess.Valid() && charsToProcess.count == 0 && charsToProcess.start == i
    requires pendingStart == i - |PendingWord(text[..i], NotBoundary)|
    modifies charsToProcess
    ensures nowInsideWord == NotBoundary(currentByte) && cleanNgrams == !nowInsideWord
    ensures charsToProcess.Valid() && charsToProcess.start == i && charsToProcess.count == 1
    ensures 0 <= pendingStart && Queued(text, i, pendingStart, i, i + 1)
  {
    nowInsideWord := true;
    cleanNgrams := false;
    if currentByte == Boundary {
      nowInsideWord := false;
      if charsToProcess.count == 0 {
        charsToProcess.start := i;
      }
      var error := charsToProcess.Enqueue(Boundary);
      assert error.None?;
      cleanNgrams := true;
    } else {
      var error := charsToProcess.Enqueue(currentByte);
      assert error.None?;
    }
    QueuedInWord(text, i, pendingStart);
  }

  /**
   * The first half of the loop body outside a word: "_" is skipped, and a letter opens a word
   * that starts at the "_" before it, which at position 0 is out of range.
   */
  method QueueOutsideWord(currentByte: char, i: int, charsToProcess: CharQueue, ghost text: seq<char>)
    returns (nowInsideWord: bool, failure: Option<QueueError>, ghost qStart: int)
    requires charsToProcess.inner == text
    requires 0 <= i < |text| && currentByte == text[i]
    requires Open(text[..i], NotBoundary) == []
    requires charsToProcess.Valid() && charsToProcess.count == 0
    modifies charsToProcess
    ensures failure.Some? <==> i == 0 && currentByte != Boundary
    ensures failure.Some? ==> failure == Some(IndexOutOfRange)
    ensures failure.None? ==> nowInsideWord == NotBoundary(currentByte)
    ensures failure.None? ==> charsToProcess.Valid() && 0 <= qStart == charsToProcess.start
    ensures failure.None? && nowInsideWord ==> charsToProcess.start == i - 1 && charsToProcess.count == 2
    ensures failure.None? && !nowInsideWord ==> charsToProcess.count == 0
    ensures failure.None? ==> Queued(text, i, qStart, charsToProcess.start, charsToProcess.start + charsToProcess.count)
  {
    ghost var start := charsToProcess.start;
    QueuedOutside(text, i, start);
    nowInsideWord := false;
    failure := None;
    qStart := charsToProcess.start;
    if currentByte == Boundary {
      // skip it
    } else {
      nowInsideWord := true;
      charsToProcess.start := i - 1;
      var error := charsToProcess.Enqueue(Boundary);
      if error.Some? {
        failure := error;
        return;
      }
      error := charsToProcess.Enqueue(currentByte);
      assert error.None?;
      qStart := i - 1;
    }
  }

  /** Inside a word, the character at position i extends the pending word by one. */
  lemma QueuedInWord(text: seq<char>, i: int, qStart: int)
    requires 0 <= i < |text| && (i > 0 ==> text[0] == Boundary)
    requires Open(text[..i], NotBoundary) != [] && qStart == i - |PendingWord(text[..i], NotBoundary)|
    ensures 0 <= qStart && Queued(text, i, qStart, i, i + 1)
  {
    PendingSlice(text, i);
    InWordFeeds(text, i, qStart);
  }

  /** Inside a word, the character at position i is fed to the windows after the pending word. */
  lemma InWordFeeds(text: seq<char>, i: int, qStart: int)
    requires 0 <= qStart <= i < |text|
    requires Open(text[..i], NotBoundary) != [] && text[qStart..i] == PendingWord(text[..i], NotBoundary)
    ensures text[qStart..i + 1] == PendingWord(text[..i], NotBoundary) + Fed(text[..i], text[i], NotBoundary)
  {
    assert Fed(text[..i], text[i], NotBoundary) == [text[i]];
    assert text[qStart..i + 1] == text[qStart..i] + [text[i]];
  }

  /**
   * Outside a word, "_" at position i queues nothing, and a letter queues the "_" before
   * it, which must be there when i > 0, and itself.
   */
  lemma QueuedOutside(text: seq<char>, i: int, start: int)
    requires 0 <= i < |text| && Open(text[..i], NotBoundary) == [] && 0 <= start <= |text|
    ensures !NotBoundary(text[i]) ==> Queued(text, i, start, start, start)
    ensures NotBoundary(text[i]) && i > 0 ==> text[i - 1] == Boundary && Queued(text, i, i - 1, i - 1, i + 1)
  {
    if i > 0 {
      assert text[..i][i - 1] == text[i - 1];
    }
    if NotBoundary(text[i]) && i > 0 {
      assert text[i - 1..i + 1] == [Boundary, text[i]];
    }
  }

  /** Drains the queue through the windows and, after a word has ended, empties them. */
  method Drain(charsToProcess: CharQueue, currentNgrams: seq<CharQueue>, cleanNgrams: bool, ghost qStart: int)
    returns (produced: seq<Feature>)
    requires charsToProcess.Valid() && charsToProcess !in currentNgrams && Distinct(currentNgrams)
    requires 0 <= qStart <= charsToProcess.start
    requires WindowsAt(currentNgrams, charsToProcess.inner, qStart, charsToProcess.start)
    modifies charsToProcess, currentNgrams
    ensures charsToProcess.Valid() && charsToProcess.count == 0
    ensures charsToProcess.start == old(charsToProcess.start + charsToProcess.count)
    ensures Completes(charsToProcess.inner, qStart, old(charsToProcess.start), charsToProcess.start, |currentNgrams|, produced)
    ensures cleanNgrams ==> WindowsAt(currentNgrams, charsToProcess.inner, charsToProcess.start, charsToProcess.start)
    ensures !cleanNgrams ==> WindowsAt(currentNgrams, charsToProcess.inner, qStart, charsToProcess.start)
  {
    produced := UpdateAndProduceNgrams(charsToProcess, currentNgrams, qStart);
    if cleanNgrams {
      ClearAll(currentNgrams, charsToProcess.inner, qStart, charsToProcess.start);
    }
  }

  /**
   * The state of the reading loops before position i: a word is open exactly when
   * insideWord holds, and the pending word, "_" and the open word, starts at qStart.
   */
  ghost predicate Pending(text: seq<char>, i: int, insideWord: bool, qStart: int)
  {
    0 <= i <= |text|
    && insideWord == (Open(text[..i], NotBoundary) != [])
    && qStart == i - |PendingWord(text[..i], NotBoundary)| && 0 <= qStart
  }

  /**
   * Reading the character at position i of the text: afterwards a word is open exactly
   * when nowInsideWord holds, the pending word starts at nextStart, and the features
   * produced extend what the closed form emits for the text before i, with "_" as the
   * only separator, to what it emits for the text up to i.
   */
  ghost predicate Stepped(text: seq<char>, i: int, n: nat, nowInsideWord: bool, nextStart: int, produced: seq<Feature>)
  {
    0 <= i < |text| && Pending(text, i + 1, nowInsideWord, nextStart)
    && Emitted(text[..i], n, NotBoundary) + Slices(produced) == Emitted(text[..i + 1], n, NotBoundary)
  }

  /** ReadStep inside a word. */
  method ReadInWord(currentByte: char, i: int, charsToProcess: CharQueue, currentNgrams: seq<CharQueue>,
                    ghost text: seq<char>, ghost pendingStart: int)
    returns (nowInsideWord: bool, produced: seq<Feature>, ghost nextStart: int)
    requires charsToProcess.inner == text
    requires 0 <= i < |text| && currentByte == text[i] && (i > 0 ==> text[0] == Boundary)
    requires Pending(text, i, true, pendingStart)
    requires charsToProcess.Valid() && charsToProcess.count == 0 && charsToProcess.start == i
    requires Distinct(currentNgrams) && charsToProcess !in currentNgrams
    requires WindowsAt(currentNgrams, text, pendingStart, i)
    modifies charsToProcess, currentNgrams
    ensures i > 0
    ensures charsToProcess.Valid() && charsToProcess.count == 0
    ensures nowInsideWord ==> charsToProcess.start == i + 1
    ensures WindowsAt(currentNgrams, text, nextStart, i + 1)
    ensures Stepped(text, i, |currentNgrams|, nowInsideWord, nextStart, produced)
  {
    assert i > 0 by {
      assert text[..0] == [];
    }
    var cleanNgrams;
    nowInsideWord, cleanNgrams := QueueInWord(currentByte, i, charsToProcess, text, pendingStart);
    assert charsToProcess.start + charsToProcess.count == i + 1;
    produced, nextStart := DrainRead(charsToProcess, currentNgrams, i, nowInsideWord, cleanNgrams, text, pendingStart);
  }

  /** ReadStep outside a word, where nothing is pending. */
  method ReadOutsideWord(currentByte: char, i: int, charsToProcess: CharQueue, currentNgrams: seq<CharQueue>,
                         ghost text: seq<char>)
    returns (nowInsideWord: bool, produced: seq<Feature>, failure: Option<QueueError>, ghost nextStart: int)
    requires charsToProcess.inner == text
    requires 0 <= i < |text| && currentByte == text[i]
    requires Pending(text, i, false, i)
    requires charsToProcess.Valid() && charsToProcess.count == 0
    requires Distinct(currentNgrams) && charsToProcess !in currentNgrams
    requires WindowsAt(currentNgrams, text, i, i)
    modifies charsToProcess, currentNgrams
    ensures failure.Some? <==> i == 0 && currentByte != Boundary
    ensures failure.Some? ==> failure == Some(IndexOutOfRange) && produced == []
    ensures failure.None? ==> charsToProcess.Valid() && charsToProcess.count == 0
    ensures failure.None? && nowInsideWord ==> charsToProcess.start == i + 1
    ensures failure.None? ==> WindowsAt(currentNgrams, text, nextStart, i + 1)
    ensures failure.None? ==> Stepped(text, i, |currentNgrams|, nowInsideWord, nextStart, produced)
  {
    ghost var qStart;
    nowInsideWord, failure, qStart := QueueOutsideWord(currentByte, i, charsToProcess, text);
    if failure.Some? {
      produced, nextStart := [], 0;
      return;
    }
    Rebase(currentNgrams, text, i, qStart);
    produced, nextStart := DrainRead(charsToProcess, currentNgrams, i, nowInsideWord, false, text, qStart);
  }

  /**
   * The second half of the body of the loop of GetFeaturesAlreadyUnderscoreSeparated:
   * the characters queued for position i go through the windows, and the windows are
   * emptied after a word ends.
   */
  method DrainRead(charsToProcess: CharQueue, currentNgrams: seq<CharQueue>, i: int,
                   nowInsideWord: bool, cleanNgrams: bool, ghost text: seq<char>, ghost qStart: int)
    returns (produced: seq<Feature>, ghost nextStart: int)
    requires charsToProcess.inner == text
    requires charsToProcess.Valid() && charsToProcess !in currentNgrams && Distinct(currentNgrams)
    requires Queued(text, i, qStart, charsToProcess.start, charsToProcess.start + charsToProcess.count)
    requires WindowsAt(currentNgrams, text, qStart, charsToProcess.start)
    requires nowInsideWord == NotBoundary(text[i])
    requires nowInsideWord ==> !cleanNgrams && charsToProcess.start + charsToProcess.count == i + 1
    requires !nowInsideWord && !cleanNgrams ==> qStart == charsToProcess.start && charsToProcess.count == 0
    modifies charsToProcess, currentNgrams
    ensures charsToProcess.Valid() && charsToProcess.count == 0
    ensures nowInsideWord ==> charsToProcess.start == i + 1
    ensures WindowsAt(currentNgrams, text, nextStart, i + 1)
    ensures Stepped(text, i, |currentNgrams|, nowInsideWord, nextStart, produced)
  {
    ghost var from := charsToProcess.start;
    ghost var to := from + charsToProcess.count;
    produced := Drain(charsToProcess, currentNgrams, cleanNgrams, qStart);
    assert charsToProcess.start == to;
    ReadNext(text, i, qStart, from, to, |currentNgrams|, produced);
    if nowInsideWord {
      nextStart := qStart;
    } else {
      Rebase(currentNgrams, text, charsToProcess.start, i + 1);
      nextStart := i + 1;
    }
  }

  /** The features cut out so far are those the closed form emits for s, with "_" as the only separator. */
  ghost predicate Produced(tokens: seq<Feature>, s: seq<char>, n: nat)
  {
    Slices(tokens) == Emitted(s, n, NotBoundary)
  }

  /**
   * Reading the character at position i after the queue held the rest of the pending
   * word text[qStart..from] and the characters text[from..to] it fed, and the windows
   * produced their features: the output extends what the closed form emits with "_" as
   * the only separator, and
   * the pending word after i is the slice just drained, or nothing outside a word.
   */
  lemma ReadNext(text: seq<char>, i: int, qStart: int, from: int, to: int, n: nat, produced: seq<Feature>)
    requires Queued(text, i, qStart, from, to)
    requires Completes(text, qStart, from, to, n, produced)
    ensures Emitted(text[..i], n, NotBoundary) + Slices(produced) == Emitted(text[..i + 1], n, NotBoundary)
    ensures (Open(text[..i + 1], NotBoundary) != []) == NotBoundary(text[i])
    ensures NotBoundary(text[i]) ==> PendingWord(text[..i + 1], NotBoundary) == text[qStart..to]
    ensures !NotBoundary(text[i]) ==> PendingWord(text[..i + 1], NotBoundary) == []
  {
    PrefixSnoc(text, i);
    EmittedAppend(text[..i], text[i], n, NotBoundary, Slices(produced));
    PendingWordSnoc(text[..i], text[i], NotBoundary);
  }

  /**
   * The body of the loop of GetFeaturesAlreadyUnderscoreSeparated for one character
   * below the line limit: inside or outside a word, the character is queued as the closed
   * form pads words, the queue is drained through the windows, the windows are emptied
   * after a word ends, and the features produced are appended to those before.
   */
  method ReadStep(currentByte: char, i: int, insideWord: bool, charsToProcess: CharQueue,
                  currentNgrams: seq<CharQueue>, tokens: seq<Feature>, ghost text: seq<char>, ghost qStart: int)
    returns (nowInsideWord: bool, newTokens: seq<Feature>, failure: Option<QueueError>, ghost nextStart: int)
    requires charsToProcess.inner == text
    requires 0 <= i < |text| && currentByte == text[i]
    requires i > 0 ==> text[0] == Boundary
    requires Pending(text, i, insideWord, qStart)
    requires charsToProcess.Valid() && charsToProcess.count == 0
    requires insideWord ==> charsToProcess.start == i
    requires Distinct(currentNgrams) && charsToProcess !in currentNgrams
    requires WindowsAt(currentNgrams, text, qStart, i)
    requires Produced(tokens, text[..i], |currentNgrams|)
    modifies charsToProcess, currentNgrams
    ensures failure.Some? <==> i == 0 && currentByte != Boundary
    ensures failure.Some? ==> failure == Some(IndexOutOfRange) && newTokens == tokens
    ensures failure.None? ==> Pending(text, i + 1, nowInsideWord, nextStart)
    ensures failure.None? ==> charsToProcess.Valid() && charsToProcess.count == 0
    ensures failure.None? && nowInsideWord ==> charsToProcess.start == i + 1
    ensures failure.None? ==> WindowsAt(currentNgrams, text, nextStart, i + 1)
    ensures failure.None? ==> Produced(newTokens, text[..i + 1], |currentNgrams|)
  {
    var produced;
    if insideWord {
      nowInsideWord, produced, nextStart := ReadInWord(currentByte, i, charsToProcess, currentNgrams, text, qStart);
      failure := None;
    } else {
      nowInsideWord, produced, failure, nextStart := ReadOutsideWord(currentByte, i, charsToProcess, currentNgrams, text);
    }
    newTokens := tokens;
    if failure.None? {
      SlicesAppend(tokens, produced);
      newTokens := tokens + produced;
    }
  }

  /**
   * The loop of GetFeaturesAlreadyUnderscoreSeparated: it reads the text up to the line
   * limit, or throws at the first character when that opens a word.
   */
  method ReadUntilLimit(extractor: Extractor, text: seq<char>, charsToProcess: CharQueue,
                        currentNgrams: seq<CharQueue>)
    returns (i: int, insideWord: bool, tokens: seq<Feature>, failure: Option<QueueError>)
    requires charsToProcess.inner == text && charsToProcess.start == 0 && charsToProcess.count == 0
    requires |currentNgrams| == extractor.maxNGramLength && WindowsAt(currentNgrams, text, 0, 0)
    requires Distinct(currentNgrams) && charsToProcess !in currentNgrams
    modifies charsToProcess, currentNgrams
    ensures failure.Some? ==> failure == Some(IndexOutOfRange) && tokens == []
    ensures failure.Some? ==> 0 < Cut(text, extractor.maxLinesToRead) && text[0] != Boundary
    ensures failure.None? ==> i == Cut(text, extractor.maxLinesToRead)
    ensures failure.None? ==> i > 0 ==> text[0] == Boundary
    ensures failure.None? ==> insideWord == (Open(text[..i], NotBoundary) != [])
    ensures failure.None? ==> charsToProcess.Valid() && charsToProcess.count == 0
    ensures failure.None? && insideWord ==> charsToProcess.start == i
    ensures failure.None? ==> Slices(tokens) == Emitted(text[..i], extractor.maxNGramLength, NotBoundary)
  {
    var n := extractor.maxNGramLength;
    var limit := extractor.maxLinesToRead;
    var numberOfLinesRead := 0;
    insideWord := false;
    var previousByte := NoChar;
    tokens := [];
    failure := None;
    i := 0;
    CountedStart(text, limit);
    assert charsToProcess.inner[..0] == [];
    ghost var qStart := 0;
    while i < |text|
      invariant 0 <= i <= |text|
      invariant CutFrom(text, limit, i) == Cut(text, limit)
      invariant numberOfLinesRead == LinesRead(text[..i])
      invariant previousByte == Previous(text, i)
      invariant i > 0 ==> text[0] == Boundary
      invariant Pending(text, i, insideWord, qStart)
      invariant charsToProcess.Valid() && charsToProcess.count == 0
      invariant insideWord ==> charsToProcess.start == i
      invariant WindowsAt(currentNgrams, text, qStart, i)
      invariant Produced(tokens, text[..i], |currentNgrams|)
      invariant i == 0 ==> tokens == []
    {
      var currentByte := text[i];
      ghost var before := numberOfLinesRead;
      if currentByte == CarriageReturn || (currentByte == LineFeed && previousByte != CarriageReturn) {
        numberOfLinesRead := numberOfLinesRead + 1;
      }
      CountedStep(text, limit, i, before, previousByte, numberOfLinesRead);
      if numberOfLinesRead >= limit {
        break;
      }
      var error;
      insideWord, tokens, error, qStart := ReadStep(currentByte, i, insideWord, charsToProcess, currentNgrams, tokens, text, qStart);
      if error.Some? {
        failure := error;
        return;
      }
      assert Pending(text, i + 1, insideWord, qStart);
      assert Produced(tokens, text[..i + 1], |currentNgrams|);
      previousByte := currentByte;
      i := i + 1;
    }
  }

  /**
   * What GetFeaturesAlreadyUnderscoreSeparated promises.  With e the text read before
   * the line limit, it succeeds exactly when e is empty or begins and ends with "_", and
   * then cuts out of the text the features the closed form Features gives when "_" is
   * the only separator (isLetter := NotBoundary).  That differs from the TextReader
   * overload, whose separators are all non-letters.  Otherwise it throws: IndexOutOfRange when e does not begin with
   * "_" (its first word would start at index -1) or when the word still open at the end
   * of e ends the text, and InvalidOperation when that word is cut short by the line
   * limit; the features of the words before are produced first.
   */
  ghost predicate Outcome(text: seq<char>, n: nat, limit: int, tokens: seq<Feature>, failure: Option<QueueError>)
  {
    var e := text[..Cut(text, limit)];
    && (failure.None? <==> e == [] || (e[0] == Boundary && e[|e| - 1] == Boundary))
    && (failure.None? ==> Slices(tokens) == Features(text, n, limit, NotBoundary))
    && (failure.Some? ==> e != [] && (failure == Some(IndexOutOfRange) <==> e[0] != Boundary || |e| == |text|))
    && (failure.Some? && e != [] && e[0] == Boundary ==> Slices(tokens) == Emitted(e, n, NotBoundary))
    && (failure.Some? && e != [] && e[0] != Boundary ==> tokens == [])
  }

  /** The first character read opens a word: the queue throws before any feature is produced. */
  lemma ThrownAtStart(text: seq<char>, n: nat, limit: int)
    requires 0 < Cut(text, limit) && text[0] != Boundary
    ensures Outcome(text, n, limit, [], Some(IndexOutOfRange))
  {
  }

  /** Reading stopped outside a word: the features are those of every word read. */
  lemma EndedOutsideWord(text: seq<char>, n: nat, limit: int, i: int, tokens: seq<Feature>)
    requires i == Cut(text, limit) && (i > 0 ==> text[0] == Boundary)
    requires Open(text[..i], NotBoundary) == []
    requires Slices(tokens) == Emitted(text[..i], n, NotBoundary)
    ensures Outcome(text, n, limit, tokens, None)
  {
    FlushOpenWord(text[..i], n, NotBoundary);
  }

  /**
   * Reading stopped inside a word, at the end of the text or at a line break, so the
   * closing "_" queued after it is never the next character of the text and the open
   * word is never flushed.
   */
  lemma EndedInWord(text: seq<char>, n: nat, limit: int, i: int, tokens: seq<Feature>, failure: Option<QueueError>)
    requires i == Cut(text, limit) && (i > 0 ==> text[0] == Boundary)
    requires Open(text[..i], NotBoundary) != []
    requires Slices(tokens) == Emitted(text[..i], n, NotBoundary)
    requires failure.None? <==> i < |text| && text[i] == Boundary
    requires failure == Some(IndexOutOfRange) <==> !(i < |text|)
    ensures Outcome(text, n, limit, tokens, failure)
  {
    var s := text[..i];
    assert s != [];
    if i < |text| {
      CutAtLineBreak(text, limit);
    }
    assert s[|s| - 1] != Boundary;
  }

  /** GetFeaturesAlreadyUnderscoreSeparated: see Outcome. */
  method GetFeaturesAlreadyUnderscoreSeparated(extractor: Extractor, text: seq<char>)
    returns (tokens: seq<Feature>, failure: Option<QueueError>)
    ensures var e := text[..Cut(text, extractor.maxLinesToRead)];
      failure.None? <==> e == [] || (e[0] == Boundary && e[|e| - 1] == Boundary)
    ensures failure.None? ==>
      Slices(tokens) == Features(text, extractor.maxNGramLength, extractor.maxLinesToRead, NotBoundary)
    ensures var e := text[..Cut(text, extractor.maxLinesToRead)];
      failure.Some? ==> e != [] && (failure == Some(IndexOutOfRange) <==> e[0] != Boundary || |e| == |text|)
    ensures var e := text[..Cut(text, extractor.maxLinesToRead)];
      failure.Some? && e != [] && e[0] == Boundary ==>
        Slices(tokens) == Emitted(e, extractor.maxNGramLength, NotBoundary)
    ensures var e := text[..Cut(text, extractor.maxLinesToRead)];
      failure.Some? && e != [] && e[0] != Boundary ==> tokens == []
  {
    var n := extractor.maxNGramLength;
    var limit := extractor.maxLinesToRead;
    var currentNgrams := NewWindows(text, n);
    var charsToProcess := new CharQueue(text);
    var i, insideWord;
    i, insideWord, tokens, failure := ReadUntilLimit(extractor, text, charsToProcess, currentNgrams);
    if failure.Some? {
      ThrownAtStart(text, n, limit);
    } else if insideWord {
      // The closing "_" would have to be text[i], which is past the end of the text or a
      // line break: this Enqueue always throws, and the drain after it is never reached.
      failure := charsToProcess.Enqueue(Boundary);
      EndedInWord(text, n, limit, i, tokens, failure);
    } else {
      EndedOutsideWord(text, n, limit, i, tokens);
    }
    assert Outcome(text, n, limit, tokens, failure);
  }
}
