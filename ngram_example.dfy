/**
 * A worked instance of the closed form: a three-letter word on one line, with windows of
 * up to three characters, gives its unigrams, the bigrams and trigrams of "_abc_", and
 * never the lone "_".
 */
module NGramExample {
  import opened NGramSpec

  /** Three characters that end no line stay below every positive line limit. */
  lemma ExampleCut(w: seq<char>, limit: int)
    requires |w| == 3 && limit > 0
    requires forall k :: 0 <= k < 3 ==> w[k] != CarriageReturn && w[k] != LineFeed
    ensures Cut(w, limit) == 3
  {
    assert w[..3] == w;
    assert w[..1][..0] == [];
    assert LinesRead(w[..1]) == 0;
    assert w[..2][..1] == w[..1];
    assert LinesRead(w[..2]) == 0;
    assert w[..3][..2] == w[..2];
    assert LinesRead(w[..3]) == 0;
    assert CutFrom(w, limit, 3) == 3;
    assert CutFrom(w, limit, 2) == 3;
    assert CutFrom(w, limit, 1) == 3;
  }

  lemma StepTokens3(q: seq<char>)
    requires q != []
    ensures StepTokens(q, 3) == WindowToken(q, 0) + WindowToken(q, 1) + WindowToken(q, 2)
  {
    assert StepTokens(q, 1) == WindowToken(q, 0);
  }

  /** The tokens each character of "_abc_" releases from the windows of size 1, 2 and 3. */
  lemma ExampleSteps(a: char, b: char, c: char)
    requires a != Boundary && b != Boundary && c != Boundary
    ensures StepTokens([Boundary], 3) == []
    ensures StepTokens([Boundary, a], 3) == [[a], [Boundary, a]]
    ensures StepTokens([Boundary, a, b], 3) == [[b], [a, b], [Boundary, a, b]]
    ensures StepTokens([Boundary, a, b, c], 3) == [[c], [b, c], [a, b, c]]
    ensures StepTokens([Boundary, a, b, c, Boundary], 3) == [[c, Boundary], [b, c, Boundary]]
  {
    StepTokens3([Boundary]);
    StepTokens3([Boundary, a]);
    StepTokens3([Boundary, a, b]);
    StepTokens3([Boundary, a, b, c]);
    StepTokens3([Boundary, a, b, c, Boundary]);
    assert [Boundary, a, b][1..] == [a, b];
    assert [Boundary, a, b, c][2..] == [b, c];
    assert [Boundary, a, b, c][1..] == [a, b, c];
    assert [Boundary, a, b, c, Boundary][3..] == [c, Boundary];
    assert [Boundary, a, b, c, Boundary][2..] == [b, c, Boundary];
  }

  /** One step of the example: the n-grams of q + [c] from those of q and the tokens c releases. */
  lemma GramsThen(q: seq<char>, c: char, g: seq<string>, t: seq<string>)
    requires Grams(q, 3) == g && StepTokens(q + [c], 3) == t
    ensures Grams(q + [c], 3) == g + t
  {
    GramsSnoc(q, c, 3);
  }

  lemma ExampleGrams(a: char, b: char, c: char)
    requires a != Boundary && b != Boundary && c != Boundary
    ensures Grams([Boundary, a, b, c, Boundary], 3)
      == [[a], [Boundary, a]] + [[b], [a, b], [Boundary, a, b]] + [[c], [b, c], [a, b, c]] + [[c, Boundary], [b, c, Boundary]]
  {
    ExampleSteps(a, b, c);
    var q1, q2, q3, q4 := [Boundary], [Boundary, a], [Boundary, a, b], [Boundary, a, b, c];
    assert [] + [Boundary] == q1 && q1 + [a] == q2 && q2 + [b] == q3 && q3 + [c] == q4;
    assert q4 + [Boundary] == [Boundary, a, b, c, Boundary];
    GramsThen([], Boundary, [], []);
    GramsThen(q1, a, [], [[a], [Boundary, a]]);
    var g2 := [[a], [Boundary, a]];
    assert [] + g2 == g2;
    GramsThen(q2, b, g2, [[b], [a, b], [Boundary, a, b]]);
    var g3 := g2 + [[b], [a, b], [Boundary, a, b]];
    GramsThen(q3, c, g3, [[c], [b, c], [a, b, c]]);
    var g4 := g3 + [[c], [b, c], [a, b, c]];
    GramsThen(q4, Boundary, g4, [[c, Boundary], [b, c, Boundary]]);
  }

  /**
   * The features of the text "abc" with trigrams: ten n-grams, in the order they are
   * produced, grouped by the character of "_abc_" that releases them.
   */
  lemma Example(a: char, b: char, c: char, limit: int, isLetter: char -> bool)
    requires isLetter(a) && isLetter(b) && isLetter(c)
    requires a !in {Boundary, CarriageReturn, LineFeed} && b !in {Boundary, CarriageReturn, LineFeed} && c !in {Boundary, CarriageReturn, LineFeed}
    requires limit > 0
    ensures Features([a, b, c], 3, limit, isLetter)
      == [[a], [Boundary, a]] + [[b], [a, b], [Boundary, a, b]] + [[c], [b, c], [a, b, c]] + [[c, Boundary], [b, c, Boundary]]
  {
    var w := [a, b, c];
    ExampleCut(w, limit);
    assert w[..3] == w;
    WordsOfWord(w, isLetter);
    assert Padded(w) == [Boundary, a, b, c, Boundary];
    ExampleGrams(a, b, c);
    assert AllGrams([w], 3) == Grams(Padded(w), 3);
  }
}
