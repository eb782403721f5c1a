/**
 * The closed-form meaning of the character n-gram extractor.
 *
 * A word is a maximal run of letters.  Each word w is padded as "_" + w + "_";
 * for every position t of the padded word, in order, and every window j = 0 .. N-1,
 * in ascending order, window 0 emits the character at t unless it is the boundary
 * "_", and window j >= 1 emits the j+1 characters ending at t once there are that
 * many.  Only the part of the input before the character at which the line limit
 * is reached is read.
 */
module NGramSpec {

  /** The boundary marker that pads every word. */
  const Boundary: char := '_'
  const CarriageReturn: char := '\r'
  const LineFeed: char := '\n'
  /** The value of the "previous character" before anything has been read. */
  const NoChar: char := '\0'

  function Min(a: int, b: int): int { if a <= b then a else b }

  // ---------------------------------------------------------------------------
  // Line counting
  // ---------------------------------------------------------------------------

  /** A carriage return always ends a line; a line feed does unless it follows a carriage return. */
  predicate CountsLine(previous: char, c: char) {
    c == CarriageReturn || (c == LineFeed && previous != CarriageReturn)
  }

  /** The character read before position i, or NoChar at the start. */
  function Previous(s: seq<char>, i: nat): char
    requires i <= |s|
  {
    if i == 0 then NoChar else s[i - 1]
  }

  /** The line counter after reading all of s. */
  function LinesRead(s: seq<char>): nat
  {
    if s == [] then 0
    else LinesRead(s[..|s| - 1]) + (if CountsLine(Previous(s, |s| - 1), s[|s| - 1]) then 1 else 0)
  }

  /** The first position at or after k whose character brings the counter to the limit, or |text|. */
  function CutFrom(text: seq<char>, limit: int, k: nat): (c: nat)
    requires k <= |text|
    ensures k <= c <= |text|
    decreases |text| - k
  {
    if k == |text| then k
    else if LinesRead(text[..k + 1]) >= limit then k
    else CutFrom(text, limit, k + 1)
  }

  /** How much of the text the extractor reads before the line limit stops it. */
  function Cut(text: seq<char>, limit: int): nat
  {
    CutFrom(text, limit, 0)
  }

  // ---------------------------------------------------------------------------
  // Words: maximal runs of letters
  // ---------------------------------------------------------------------------

  /** The run of letters at the end of s (empty when s is empty or ends with a separator). */
  function Open(s: seq<char>, isLetter: char -> bool): seq<char>
  {
    if s == [] then []
    else if isLetter(s[|s| - 1]) then Open(s[..|s| - 1], isLetter) + [s[|s| - 1]]
    else []
  }

  /** The words of s that a separator has already ended. */
  function Closed(s: seq<char>, isLetter: char -> bool): seq<seq<char>>
  {
    if s == [] then []
    else if isLetter(s[|s| - 1]) then Closed(s[..|s| - 1], isLetter)
    else if Open(s[..|s| - 1], isLetter) == [] then Closed(s[..|s| - 1], isLetter)
    else Closed(s[..|s| - 1], isLetter) + [Open(s[..|s| - 1], isLetter)]
  }

  /** All words of s, in order: the closed ones and the one still open at the end. */
  function Words(s: seq<char>, isLetter: char -> bool): seq<seq<char>>
  {
    Closed(s, isLetter) + (if Open(s, isLetter) == [] then [] else [Open(s, isLetter)])
  }

  // ---------------------------------------------------------------------------
  // N-grams of one padded word
  // ---------------------------------------------------------------------------

  function Padded(w: seq<char>): seq<char>
  {
    [Boundary] + w + [Boundary]
  }

  /** The last k characters of q (all of q when it is shorter): the contents of a window of size k. */
  function Tail(q: seq<char>, k: nat): (r: seq<char>)
    ensures |r| == Min(k, |q|)
  {
    if |q| <= k then q else q[|q| - k..]
  }

  /**
   * What window j emits when the last character of q is processed, q being the part of
   * the padded word read so far.
   */
  function WindowToken(q: seq<char>, j: nat): seq<string>
    requires q != []
  {
    if j == 0 then (if q[|q| - 1] != Boundary then [[q[|q| - 1]]] else [])
    else if |q| > j then [q[|q| - 1 - j..]]
    else []
  }

  /** What windows 0 .. n-1 emit, in order, when the last character of q is processed. */
  function StepTokens(q: seq<char>, n: nat): seq<string>
    requires q != []
  {
    if n == 0 then [] else StepTokens(q, n - 1) + WindowToken(q, n - 1)
  }

  lemma StepTokensNext(q: seq<char>, j: nat)
    requires q != []
    ensures StepTokens(q, j + 1) == StepTokens(q, j) + WindowToken(q, j)
  {
  }

  /** Everything emitted while the characters of q are processed, one after the other. */
  function Grams(q: seq<char>, n: nat): seq<string>
  {
    if q == [] then [] else Grams(q[..|q| - 1], n) + StepTokens(q, n)
  }

  /** Processing one more character appends what the windows emit for it. */
  lemma GramsSnoc(q: seq<char>, c: char, n: nat)
    ensures Grams(q + [c], n) == Grams(q, n) + StepTokens(q + [c], n)
  {
    assert (q + [c])[..|q|] == q;
  }

  /** The n-grams of the padded words of ws, word after word. */
  function AllGrams(ws: seq<seq<char>>, n: nat): seq<string>
  {
    if ws == [] then [] else AllGrams(ws[..|ws| - 1], n) + Grams(Padded(ws[|ws| - 1]), n)
  }

  /** What has been emitted after reading s: the closed words in full and the open word so far. */
  function Emitted(s: seq<char>, n: nat, isLetter: char -> bool): seq<string>
  {
    AllGrams(Closed(s, isLetter), n)
      + (if Open(s, isLetter) == [] then [] else Grams([Boundary] + Open(s, isLetter), n))
  }

  /** The whole output of the extractor with n windows and the given line limit. */
  function Features(text: seq<char>, n: nat, limit: int, isLetter: char -> bool): seq<string>
  {
    AllGrams(Words(text[..Cut(text, limit)], isLetter), n)
  }

  // ---------------------------------------------------------------------------
  // The line limit
  // ---------------------------------------------------------------------------

  lemma {:induction false} CutFromIsFirstLimitHit(text: seq<char>, limit: int, k: nat)
    requires k <= |text|
    ensures forall m :: k < m <= CutFrom(text, limit, k) ==> LinesRead(text[..m]) < limit
    ensures CutFrom(text, limit, k) < |text| ==> LinesRead(text[..CutFrom(text, limit, k) + 1]) >= limit
    decreases |text| - k
  {
    if k < |text| && LinesRead(text[..k + 1]) < limit {
      CutFromIsFirstLimitHit(text, limit, k + 1);
    }
  }

  /**
   * The extractor reads exactly the characters before the first one at which the line
   * counter reaches the limit; that character and everything after it are ignored.
   */
  lemma CutIsFirstLimitHit(text: seq<char>, limit: int)
    ensures Cut(text, limit) <= |text|
    ensures forall m :: 0 < m <= Cut(text, limit) ==> LinesRead(text[..m]) < limit
    ensures Cut(text, limit) < |text| ==> LinesRead(text[..Cut(text, limit) + 1]) >= limit
  {
    CutFromIsFirstLimitHit(text, limit, 0);
  }

  /**
   * Reading stops only at a character that ends a line: once something has been read,
   * the character at the cut, if any, is a carriage return or a line feed.
   */
  lemma CutAtLineBreak(text: seq<char>, limit: int)
    requires 0 < Cut(text, limit) < |text|
    ensures text[Cut(text, limit)] == CarriageReturn || text[Cut(text, limit)] == LineFeed
  {
    var c := Cut(text, limit);
    CutIsFirstLimitHit(text, limit);
    assert text[..c + 1] == text[..c] + [text[c]];
    LinesReadStep(text[..c], text[c]);
  }

  lemma PrefixSnoc(text: seq<char>, i: nat)
    requires i < |text|
    ensures text[..i + 1] == text[..i] + [text[i]]
  {
  }

  /**
   * The line counting of a reading loop before it reads position i: the counter and
   * the previous character are those of text[..i], and the limit has not been hit yet.
   */
  ghost predicate Counted(text: seq<char>, limit: int, i: int, lines: int, previous: char)
  {
    0 <= i <= |text| && CutFrom(text, limit, i) == Cut(text, limit)
    && lines == LinesRead(text[..i]) && previous == Previous(text, i)
  }

  lemma CountedStart(text: seq<char>, limit: int)
    ensures Counted(text, limit, 0, 0, NoChar)
  {
    assert text[..0] == [];
  }

  /**
   * Reading the character at position i: the loop stops exactly at the cut, and
   * otherwise the counting carries over to position i + 1.
   */
  lemma CountedStep(text: seq<char>, limit: int, i: int, lines: int, previous: char, counted: int)
    requires Counted(text, limit, i, lines, previous) && i < |text|
    requires counted == lines + (if CountsLine(previous, text[i]) then 1 else 0)
    ensures counted >= limit ==> Cut(text, limit) == i
    ensures counted < limit ==> Counted(text, limit, i + 1, counted, text[i])
    ensures counted < limit ==> i < Cut(text, limit)
  {
    assert text[..i + 1] == text[..i] + [text[i]];
    LinesReadStep(text[..i], text[i]);
  }

  /** The counter only grows; it grows by one exactly at a line-ending character. */
  lemma {:induction false} LinesReadStep(s: seq<char>, c: char)
    ensures LinesRead(s + [c]) == LinesRead(s) + (if CountsLine(Previous(s + [c], |s|), c) then 1 else 0)
  {
    assert (s + [c])[..|s|] == s;
  }

  // ---------------------------------------------------------------------------
  // Words
  // ---------------------------------------------------------------------------

  /** A word: a non-empty run of letters. */
  ghost predicate IsWord(w: seq<char>, isLetter: char -> bool)
  {
    w != [] && forall k :: 0 <= k < |w| ==> isLetter(w[k])
  }

  /** The open word is the longest suffix of letters: what precedes it is a separator or nothing. */
  lemma {:induction false} OpenIsLetterSuffix(s: seq<char>, isLetter: char -> bool)
    ensures |Open(s, isLetter)| <= |s|
    ensures Open(s, isLetter) == s[|s| - |Open(s, isLetter)|..]
    ensures forall k :: 0 <= k < |Open(s, isLetter)| ==> isLetter(Open(s, isLetter)[k])
    ensures |Open(s, isLetter)| < |s| ==> !isLetter(s[|s| - |Open(s, isLetter)| - 1])
  {
    if s != [] && isLetter(s[|s| - 1]) {
      var init := s[..|s| - 1];
      OpenIsLetterSuffix(init, isLetter);
      assert s == init + [s[|s| - 1]];
    }
  }

  /** Every word found in a text is a non-empty run of letters. */
  lemma {:induction false} WordsAreLetterRuns(s: seq<char>, isLetter: char -> bool)
    ensures forall w | w in Closed(s, isLetter) :: IsWord(w, isLetter)
    ensures forall w | w in Words(s, isLetter) :: IsWord(w, isLetter)
  {
    OpenIsLetterSuffix(s, isLetter);
    if s != [] {
      var init := s[..|s| - 1];
      WordsAreLetterRuns(init, isLetter);
      OpenIsLetterSuffix(init, isLetter);
    }
  }

  /** A text that is one run of letters is one word. */
  lemma {:induction false} WordsOfWord(w: seq<char>, isLetter: char -> bool)
    requires IsWord(w, isLetter)
    ensures Open(w, isLetter) == w && Closed(w, isLetter) == []
    ensures Words(w, isLetter) == [w]
  {
    var init := w[..|w| - 1];
    if init != [] {
      WordsOfWord(init, isLetter);
    }
    assert w == init + [w[|w| - 1]];
  }

  lemma {:induction false} AppendAfterSeparator(u: seq<char>, b: seq<char>, isLetter: char -> bool)
    requires Open(u, isLetter) == []
    ensures Open(u + b, isLetter) == Open(b, isLetter)
    ensures Closed(u + b, isLetter) == Closed(u, isLetter) + Closed(b, isLetter)
  {
    if b == [] {
      assert u + b == u;
    } else {
      var init := b[..|b| - 1];
      AppendAfterSeparator(u, init, isLetter);
      assert (u + b)[..|u + b| - 1] == u + init;
      assert Closed(u, isLetter) + Closed(init, isLetter) + [Open(init, isLetter)]
        == Closed(u, isLetter) + (Closed(init, isLetter) + [Open(init, isLetter)]);
    }
  }

  /**
   * A separator splits a text into two independent halves.  With WordsOfWord this
   * determines Words: the words are exactly the maximal runs of letters, in order.
   */
  lemma WordsSplit(a: seq<char>, c: char, b: seq<char>, isLetter: char -> bool)
    requires !isLetter(c)
    ensures Words(a + [c] + b, isLetter) == Words(a, isLetter) + Words(b, isLetter)
  {
    var u := a + [c];
    assert u[..|u| - 1] == a;
    assert Open(u, isLetter) == [];
    assert Closed(u, isLetter) == Words(a, isLetter);
    AppendAfterSeparator(u, b, isLetter);
  }

  // ---------------------------------------------------------------------------
  // Shape of the emitted n-grams
  // ---------------------------------------------------------------------------

  /**
   * An n-gram as the extractor emits it: 1 to n characters, never the lone boundary,
   * made of letters and boundaries only, with letters strictly inside.
   */
  ghost predicate WellFormedToken(t: string, n: nat, isLetter: char -> bool)
  {
    && 1 <= |t| <= n
    && (|t| == 1 ==> t[0] != Boundary)
    && (forall k :: 0 <= k < |t| ==> isLetter(t[k]) || t[k] == Boundary)
    && (forall k :: 0 < k < |t| - 1 ==> isLetter(t[k]))
  }

  /** A non-empty prefix of a padded word. */
  ghost predicate IsPaddedPrefix(q: seq<char>, isLetter: char -> bool)
  {
    && q != []
    && q[0] == Boundary
    && (forall k :: 0 < k < |q| - 1 ==> isLetter(q[k]))
    && (isLetter(q[|q| - 1]) || q[|q| - 1] == Boundary)
  }

  lemma {:induction false} StepTokensWellFormed(q: seq<char>, n: nat, isLetter: char -> bool)
    requires IsPaddedPrefix(q, isLetter)
    ensures forall t | t in StepTokens(q, n) :: WellFormedToken(t, n, isLetter)
  {
    if n > 0 {
      StepTokensWellFormed(q, n - 1, isLetter);
      var j := n - 1;
      if j > 0 && |q| > j {
        var t := q[|q| - 1 - j..];
        forall k | 0 <= k < |t|
          ensures isLetter(t[k]) || t[k] == Boundary
          ensures 0 < k < |t| - 1 ==> isLetter(t[k])
        {
          assert t[k] == q[|q| - 1 - j + k];
        }
        assert WindowToken(q, j) == [t];
      }
    }
  }

  lemma {:induction false} GramsWellFormed(q: seq<char>, n: nat, isLetter: char -> bool)
    requires q == [] || IsPaddedPrefix(q, isLetter)
    ensures forall t | t in Grams(q, n) :: WellFormedToken(t, n, isLetter)
  {
    if q != [] {
      var init := q[..|q| - 1];
      GramsWellFormed(init, n, isLetter);
      StepTokensWellFormed(q, n, isLetter);
    }
  }

  lemma {:induction false} AllGramsWellFormed(ws: seq<seq<char>>, n: nat, isLetter: char -> bool)
    requires forall w | w in ws :: IsWord(w, isLetter)
    ensures forall t | t in AllGrams(ws, n) :: WellFormedToken(t, n, isLetter)
  {
    if ws != [] {
      var w := ws[|ws| - 1];
      assert w in ws;
      AllGramsWellFormed(ws[..|ws| - 1], n, isLetter);
      var p := Padded(w);
      forall k | 0 < k < |p| - 1 ensures isLetter(p[k]) {
        assert p[k] == w[k - 1];
      }
      GramsWellFormed(p, n, isLetter);
    }
  }

  /**
   * Every emitted token has 1 to n characters, is never the lone boundary, holds no
   * separator, and (as "_" is not a letter) carries "_" only as its first or last
   * character, so no token spans two words.
   */
  lemma FeaturesWellFormed(text: seq<char>, n: nat, limit: int, isLetter: char -> bool)
    ensures forall t | t in Features(text, n, limit, isLetter) :: WellFormedToken(t, n, isLetter)
    ensures !isLetter(Boundary) ==>
      forall t, k | t in Features(text, n, limit, isLetter) && 0 < k < |t| - 1 :: t[k] != Boundary
  {
    var e := text[..Cut(text, limit)];
    WordsAreLetterRuns(e, isLetter);
    AllGramsWellFormed(Words(e, isLetter), n, isLetter);
  }

  // ---------------------------------------------------------------------------
  // Reading the text one character at a time
  // ---------------------------------------------------------------------------

  /** The padded word read so far: "_" + the open word, or nothing between words. */
  function PendingWord(s: seq<char>, isLetter: char -> bool): seq<char>
  {
    if Open(s, isLetter) == [] then [] else [Boundary] + Open(s, isLetter)
  }

  /**
   * The characters that reading c after s feeds to the windows: "_" and c when c starts
   * a word, c inside a word, the closing "_" when c ends a word, nothing otherwise.
   */
  function Fed(s: seq<char>, c: char, isLetter: char -> bool): seq<char>
  {
    if isLetter(c) then (if Open(s, isLetter) == [] then [Boundary, c] else [c])
    else if Open(s, isLetter) == [] then []
    else [Boundary]
  }

  lemma AllGramsSnoc(ws: seq<seq<char>>, w: seq<char>, n: nat)
    ensures AllGrams(ws + [w], n) == AllGrams(ws, n) + Grams(Padded(w), n)
  {
    assert (ws + [w])[..|ws|] == ws;
  }

  lemma EmittedSplit(s: seq<char>, n: nat, isLetter: char -> bool)
    ensures Emitted(s, n, isLetter) == AllGrams(Closed(s, isLetter), n) + Grams(PendingWord(s, isLetter), n)
  {
  }

  /**
   * Reading one more character: a letter extends the pending word by what it feeds to
   * the windows, a separator leaves no pending word.
   */
  lemma {:induction false} PendingWordSnoc(s: seq<char>, c: char, isLetter: char -> bool)
    ensures (Open(s + [c], isLetter) != []) == isLetter(c)
    ensures isLetter(c) ==> PendingWord(s + [c], isLetter) == PendingWord(s, isLetter) + Fed(s, c, isLetter)
    ensures !isLetter(c) ==> PendingWord(s + [c], isLetter) == []
  {
    var s' := s + [c];
    assert s'[..|s'| - 1] == s;
    if isLetter(c) {
      assert PendingWord(s, isLetter) + Fed(s, c, isLetter) == [Boundary] + Open(s', isLetter);
    }
  }

  /**
   * Reading one more character: what has been emitted grows by the n-grams of the
   * characters fed to the windows.
   */
  lemma {:induction false} EmittedSnoc(s: seq<char>, c: char, n: nat, isLetter: char -> bool)
    ensures Emitted(s + [c], n, isLetter)
      == AllGrams(Closed(s, isLetter), n) + Grams(PendingWord(s, isLetter) + Fed(s, c, isLetter), n)
  {
    var s' := s + [c];
    assert s'[..|s'| - 1] == s;
    var o := Open(s, isLetter);
    if isLetter(c) {
      assert PendingWord(s, isLetter) + Fed(s, c, isLetter) == [Boundary] + Open(s', isLetter);
    } else if o != [] {
      assert PendingWord(s, isLetter) + Fed(s, c, isLetter) == Padded(o);
      AllGramsSnoc(Closed(s, isLetter), o, n);
    } else {
      assert PendingWord(s, isLetter) + Fed(s, c, isLetter) == [];
    }
  }

  lemma AppendAssociates<T>(a: seq<T>, b: seq<T>, c: seq<T>)
    ensures (a + b) + c == a + (b + c)
  {
  }

  /**
   * If feeding the characters that c contributes emits exactly the n-grams those
   * characters add to the pending word, then what has been emitted after s, followed
   * by them, is what has been emitted after s + [c].
   */
  lemma EmittedAppend(s: seq<char>, c: char, n: nat, isLetter: char -> bool, produced: seq<string>)
    requires Grams(PendingWord(s, isLetter), n) + produced
      == Grams(PendingWord(s, isLetter) + Fed(s, c, isLetter), n)
    ensures Emitted(s, n, isLetter) + produced == Emitted(s + [c], n, isLetter)
  {
    EmittedSplit(s, n, isLetter);
    EmittedSnoc(s, c, n, isLetter);
    AppendAssociates(AllGrams(Closed(s, isLetter), n), Grams(PendingWord(s, isLetter), n), produced);
  }

  /** What is emitted at the end of the input, once the open word has been closed. */
  lemma EmittedFlushed(s: seq<char>, n: nat, isLetter: char -> bool, produced: seq<string>)
    requires Open(s, isLetter) != []
    requires Grams(PendingWord(s, isLetter), n) + produced == Grams(PendingWord(s, isLetter) + [Boundary], n)
    ensures Emitted(s, n, isLetter) + produced == AllGrams(Words(s, isLetter), n)
  {
    FlushOpenWord(s, n, isLetter);
    EmittedSplit(s, n, isLetter);
    AppendAssociates(AllGrams(Closed(s, isLetter), n), Grams(PendingWord(s, isLetter), n), produced);
  }

  /** At the end of the input the open word, if any, is closed with a synthesized "_". */
  lemma FlushOpenWord(s: seq<char>, n: nat, isLetter: char -> bool)
    ensures Open(s, isLetter) == [] ==> AllGrams(Words(s, isLetter), n) == Emitted(s, n, isLetter)
    ensures Open(s, isLetter) != [] ==>
      AllGrams(Words(s, isLetter), n)
        == AllGrams(Closed(s, isLetter), n) + Grams(PendingWord(s, isLetter) + [Boundary], n)
  {
    var o := Open(s, isLetter);
    if o != [] {
      AllGramsSnoc(Closed(s, isLetter), o, n);
      assert PendingWord(s, isLetter) + [Boundary] == Padded(o);
    } else {
      assert Words(s, isLetter) == Closed(s, isLetter);
    }
  }
}
