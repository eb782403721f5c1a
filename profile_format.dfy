/**
 * The binary profile format read by BasicProfileFactoryBase.LoadBinary, as a functional
 * decoder over a stream of already-decoded items.
 *
 * A stream holds, in order: the version marker 1, maximumSizeOfDistribution,
 * maxNGramLength, and then a self-terminating list of language models.  Each model is
 * introduced by the continuation marker 1 (any other value ends the list) and consists of
 * the two language codes, totalNoiseCount, distinctNoiseCount, a count, and then count
 * (token, occurrences) pairs.
 *
 * The byte layout of BinaryReader (little-endian Int32, 7-bit length-prefixed UTF-8) is
 * abstracted away: an item is either an Int32 or a string.
 */
module ProfileFormat {
  import opened Wrappers

  /** One value of the stream, as ReadInt32 or ReadString would return it. */
  datatype Item = Int(value: int) | Str(text: string)

  /** Why reading a stream fails: it ends early, it carries a wrong version, or an item of the other kind stands where a value is read. */
  datatype LoadError = EndOfStream | InvalidData | UnexpectedItem

  /** A value read at some position, and the position just after it. */
  datatype Decoded<+T> = Decoded(value: T, next: nat)

  /** LanguageInfo(iso639_2T, iso639_3, englishName, localName). */
  datatype LanguageInfo = LanguageInfo(iso639_2T: string, iso639_3: string, englishName: Option<string>, localName: Option<string>)

  /**
   * A distribution as it is rebuilt by the loader: the (token, occurrences) events in the
   * order they were added, and the noise counters.  How Distribution/Bag merge repeated
   * tokens is not part of this model, so the events are kept as they were added.
   */
  datatype Distribution = Distribution(events: seq<(string, int)>, totalNoiseCount: int, distinctNoiseCount: int)

  datatype LanguageModel = LanguageModel(features: Distribution, language: LanguageInfo, metadata: map<string, string>)

  /** A stored profile: the two settings of its header and its language models, in stream order. */
  datatype Profile = Profile(maximumSizeOfDistribution: int, maxNGramLength: int, models: seq<LanguageModel>)

  /** The version marker the loader accepts. */
  const Version: int := 1

  /** The continuation marker that announces one more language model. */
  const MoreModels: int := 1

  /** The Int32 at position pos. */
  function IntAt(items: seq<Item>, pos: nat): (r: Result<Decoded<int>, LoadError>)
    ensures r.Success? <==> pos < |items| && items[pos].Int?
    ensures r.Success? ==> items[pos] == Int(r.value.value) && r.value.next == pos + 1
    ensures r.Failure? ==> (r.error == EndOfStream <==> pos >= |items|)
  {
    if pos >= |items| then Failure(EndOfStream)
    else if items[pos].Str? then Failure(UnexpectedItem)
    else Success(Decoded(items[pos].value, pos + 1))
  }

  /** The string at position pos. */
  function StrAt(items: seq<Item>, pos: nat): (r: Result<Decoded<string>, LoadError>)
    ensures r.Success? <==> pos < |items| && items[pos].Str?
    ensures r.Success? ==> items[pos] == Str(r.value.value) && r.value.next == pos + 1
    ensures r.Failure? ==> (r.error == EndOfStream <==> pos >= |items|)
  {
    if pos >= |items| then Failure(EndOfStream)
    else if items[pos].Int? then Failure(UnexpectedItem)
    else Success(Decoded(items[pos].text, pos + 1))
  }

  /** A successful read is put after the values read before it; a failure is kept as it is. */
  function Prepend<T>(prefix: seq<T>, r: Result<Decoded<seq<T>>, LoadError>): Result<Decoded<seq<T>>, LoadError>
  {
    if r.Success? then Success(Decoded(prefix + r.value.value, r.value.next)) else r
  }

  lemma PrependNothing<T>(r: Result<Decoded<seq<T>>, LoadError>)
    ensures Prepend([], r) == r
  {
    if r.Success? {
      assert [] + r.value.value == r.value.value;
    }
  }

  lemma PrependAppend<T>(a: seq<T>, b: seq<T>, r: Result<Decoded<seq<T>>, LoadError>)
    ensures Prepend(a, Prepend(b, r)) == Prepend(a + b, r)
  {
    if r.Success? {
      assert a + (b + r.value.value) == (a + b) + r.value.value;
    }
  }

  /** count (token, occurrences) pairs from position pos; a count of zero or less reads nothing. */
  function Pairs(items: seq<Item>, pos: nat, count: int): (r: Result<Decoded<seq<(string, int)>>, LoadError>)
    ensures r.Success? ==> |r.value.value| == if count <= 0 then 0 else count
    ensures r.Success? ==> r.value.next == pos + 2 * |r.value.value|
    ensures r.Success? && count > 0 ==> r.value.next <= |items|
    decreases count
  {
    if count <= 0 then Success(Decoded([], pos))
    else
      var text :- StrAt(items, pos);
      var cnt :- IntAt(items, text.next);
      var rest :- Pairs(items, cnt.next, count - 1);
      Success(Decoded([(text.value, cnt.value)] + rest.value, rest.next))
  }

  /** One (token, occurrences) pair read in front of the remaining ones. */
  lemma PairsStep(items: seq<Item>, pos: nat, count: int, text: string, cnt: int)
    requires count > 0 && pos + 1 < |items| && items[pos] == Str(text) && items[pos + 1] == Int(cnt)
    ensures Pairs(items, pos, count) == Prepend([(text, cnt)], Pairs(items, pos + 2, count - 1))
  {
  }

  /** The body of one language model, from the position after its continuation marker. */
  function Record(items: seq<Item>, pos: nat): (r: Result<Decoded<LanguageModel>, LoadError>)
    ensures r.Success? ==> pos + 5 <= r.value.next <= |items|
    ensures r.Success? ==> Storable(r.value.value)
  {
    var name2 :- StrAt(items, pos);
    var name3 :- StrAt(items, name2.next);
    var totalNoiseCount :- IntAt(items, name3.next);
    var distinctNoiseCount :- IntAt(items, totalNoiseCount.next);
    var count :- IntAt(items, distinctNoiseCount.next);
    var pairs :- Pairs(items, count.next, count.value);
    var features := Distribution(pairs.value, totalNoiseCount.value, distinctNoiseCount.value);
    var language := LanguageInfo(name2.value, name3.value, None, None);
    Success(Decoded(LanguageModel(features, language, map[]), pairs.next))
  }

  /** The self-terminating list of language models from position pos, up to and including the first marker other than 1. */
  function Records(items: seq<Item>, pos: nat): (r: Result<Decoded<seq<LanguageModel>>, LoadError>)
    ensures r.Success? ==> pos < r.value.next <= |items|
    decreases |items| - pos
  {
    var marker :- IntAt(items, pos);
    if marker.value != MoreModels then Success(Decoded([], marker.next))
    else
      var model :- Record(items, marker.next);
      Prepend([model.value], Records(items, model.next))
  }

  /** A whole stream: the version marker must be 1, then the two settings, then the models. */
  function Decode(items: seq<Item>): (r: Result<Decoded<Profile>, LoadError>)
    ensures r.Success? ==> |items| > 0 && items[0] == Int(Version) && 4 <= r.value.next <= |items|
    ensures |items| == 0 ==> r == Failure(EndOfStream)
  {
    var version :- IntAt(items, 0);
    if version.value != Version then Failure(InvalidData)
    else
      var maximumSizeOfDistribution :- IntAt(items, version.next);
      var maxNGramLength :- IntAt(items, maximumSizeOfDistribution.next);
      var models :- Records(items, maxNGramLength.next);
      Success(Decoded(Profile(maximumSizeOfDistribution.value, maxNGramLength.value, models.value), models.next))
  }

  /** A stream whose first Int32 is not 1 is rejected, whatever follows it. */
  lemma VersionCheckedFirst(items: seq<Item>)
    requires items != [] && items[0].Int? && items[0].value != Version
    ensures Decode(items) == Failure(InvalidData)
  {
  }

  // ----- The writer the format implies -----

  /** What the format can hold: the loader always rebuilds a model with no names beyond the two codes and no metadata. */
  predicate Storable(m: LanguageModel)
  {
    m.metadata == map[] && m.language.englishName.None? && m.language.localName.None?
  }

  function EncodePairs(events: seq<(string, int)>): (r: seq<Item>)
    ensures |r| == 2 * |events|
  {
    if events == [] then [] else [Str(events[0].0), Int(events[0].1)] + EncodePairs(events[1..])
  }

  function EncodeModel(m: LanguageModel): (r: seq<Item>)
    ensures |r| == 6 + 2 * |m.features.events| && r[0] == Int(MoreModels)
  {
    [Int(MoreModels), Str(m.language.iso639_2T), Str(m.language.iso639_3),
     Int(m.features.totalNoiseCount), Int(m.features.distinctNoiseCount), Int(|m.features.events|)]
    + EncodePairs(m.features.events)
  }

  function EncodeModels(models: seq<LanguageModel>): (r: seq<Item>)
    ensures |r| >= 6 * |models|
  {
    if models == [] then [] else EncodeModel(models[0]) + EncodeModels(models[1..])
  }

  /** A profile written with the given end-of-list marker, which may be any value other than 1. */
  function Encode(p: Profile, terminator: int): (r: seq<Item>)
    requires terminator != MoreModels
    ensures |r| == 4 + |EncodeModels(p.models)|
    ensures r[0] == Int(Version) && r[|r| - 1] == Int(terminator)
  {
    [Int(Version), Int(p.maximumSizeOfDistribution), Int(p.maxNGramLength)] + EncodeModels(p.models) + [Int(terminator)]
  }

  // ----- Round trip -----

  /** items holds part from position pos on. */
  predicate HoldsAt(items: seq<Item>, pos: nat, part: seq<Item>)
  {
    pos + |part| <= |items| && forall k {:trigger part[k]} :: 0 <= k < |part| ==> items[pos + k] == part[k]
  }

  lemma HoldsAtSplit(items: seq<Item>, pos: nat, a: seq<Item>, b: seq<Item>)
    requires HoldsAt(items, pos, a + b)
    ensures HoldsAt(items, pos, a) && HoldsAt(items, pos + |a|, b)
  {
    forall k | 0 <= k < |a|
      ensures items[pos + k] == a[k]
    {
      assert (a + b)[k] == a[k];
    }
    forall k | 0 <= k < |b|
      ensures items[pos + |a| + k] == b[k]
    {
      assert (a + b)[|a| + k] == b[k];
    }
  }

  lemma {:induction false} PairsRoundTrip(events: seq<(string, int)>, items: seq<Item>, pos: nat)
    requires HoldsAt(items, pos, EncodePairs(events))
    ensures Pairs(items, pos, |events|) == Success(Decoded(events, pos + 2 * |events|))
    decreases |events|
  {
    if events != [] {
      var e := events[0];
      var pair := [Str(e.0), Int(e.1)];
      assert EncodePairs(events) == pair + EncodePairs(events[1..]);
      HoldsAtSplit(items, pos, pair, EncodePairs(events[1..]));
      assert items[pos] == pair[0] && items[pos + 1] == pair[1];
      PairsRoundTrip(events[1..], items, pos + 2);
      PairsStep(items, pos, |events|, e.0, e.1);
      assert [(e.0, e.1)] + events[1..] == events;
    }
  }

  lemma RecordRoundTrip(m: LanguageModel, items: seq<Item>, pos: nat)
    requires Storable(m) && HoldsAt(items, pos, EncodeModel(m))
    ensures Record(items, pos + 1) == Success(Decoded(m, pos + |EncodeModel(m)|))
  {
    var head := [Int(MoreModels), Str(m.language.iso639_2T), Str(m.language.iso639_3),
                 Int(m.features.totalNoiseCount), Int(m.features.distinctNoiseCount), Int(|m.features.events|)];
    assert EncodeModel(m) == head + EncodePairs(m.features.events);
    HoldsAtSplit(items, pos, head, EncodePairs(m.features.events));
    assert items[pos + 1] == head[1] && items[pos + 2] == head[2] && items[pos + 3] == head[3];
    assert items[pos + 4] == head[4] && items[pos + 5] == head[5];
    PairsRoundTrip(m.features.events, items, pos + 6);
  }

  /**
   * r read exactly the given models and stopped at end.  Stated field by field, so that a
   * proof need not compare whole results.
   */
  predicate ReadsAs(r: Result<Decoded<seq<LanguageModel>>, LoadError>, models: seq<LanguageModel>, end: int)
  {
    r.Success? && r.value.value == models && r.value.next == end
  }

  /** A model put in front of a list read successfully. */
  lemma PrependReads(m: LanguageModel, r: Result<Decoded<seq<LanguageModel>>, LoadError>, rest: seq<LanguageModel>, end: int)
    requires ReadsAs(r, rest, end)
    ensures ReadsAs(Prepend([m], r), [m] + rest, end)
  {
  }

  /** One more model: a continuation marker 1 and a model body put the model in front of the rest of the list. */
  lemma RecordsStep(items: seq<Item>, pos: nat, m: LanguageModel, next: nat)
    requires pos < |items| && items[pos] == Int(MoreModels)
    requires Record(items, pos + 1) == Success(Decoded(m, next))
    ensures Records(items, pos) == Prepend([m], Records(items, next))
  {
  }

  /** The same step when the rest of the list is read successfully, stated field by field. */
  lemma RecordsStepRead(items: seq<Item>, pos: nat, m: LanguageModel, next: nat, rest: seq<LanguageModel>, end: int)
    requires pos < |items| && items[pos] == Int(MoreModels)
    requires Record(items, pos + 1) == Success(Decoded(m, next))
    requires ReadsAs(Records(items, next), rest, end)
    ensures ReadsAs(Records(items, pos), [m] + rest, end)
  {
    RecordsStep(items, pos, m, next);
    PrependReads(m, Records(items, next), rest, end);
  }

  /** A marker other than 1 ends the list. */
  lemma RecordsEnd(items: seq<Item>, pos: nat)
    requires pos < |items| && items[pos].Int? && items[pos].value != MoreModels
    ensures Records(items, pos) == Success(Decoded([], pos + 1))
  {
  }

  /** A written list of models starts with the first model, then the rest of the list. */
  lemma ModelsHead(m: LanguageModel, rest: seq<LanguageModel>, terminator: int, items: seq<Item>, pos: nat)
    requires HoldsAt(items, pos, EncodeModels([m] + rest) + [Int(terminator)])
    ensures HoldsAt(items, pos, EncodeModel(m))
    ensures HoldsAt(items, pos + |EncodeModel(m)|, EncodeModels(rest) + [Int(terminator)])
    ensures pos < |items| && items[pos] == Int(MoreModels)
    ensures |EncodeModels([m] + rest)| == |EncodeModel(m)| + |EncodeModels(rest)|
  {
    var encoded := EncodeModel(m);
    assert ([m] + rest)[1..] == rest;
    assert EncodeModels([m] + rest) + [Int(terminator)] == encoded + (EncodeModels(rest) + [Int(terminator)]);
    HoldsAtSplit(items, pos, encoded, EncodeModels(rest) + [Int(terminator)]);
    assert items[pos] == encoded[0];
  }

  /** The first written model, continuation marker included, is read in front of the list that follows it. */
  lemma RecordsCons(models: seq<LanguageModel>, items: seq<Item>, pos: nat, end: int)
    requires models != [] && Storable(models[0]) && HoldsAt(items, pos, EncodeModel(models[0]))
    requires ReadsAs(Records(items, pos + |EncodeModel(models[0])|), models[1..], end)
    ensures ReadsAs(Records(items, pos), models, end)
  {
    var m := models[0];
    assert [m] + models[1..] == models;
    RecordRoundTrip(m, items, pos);
    assert items[pos] == EncodeModel(m)[0];
    RecordsStepRead(items, pos, m, pos + |EncodeModel(m)|, models[1..], end);
  }

  /**
   * items holds, from position pos, the written form of each of the storable models in
   * turn, and then the end-of-list marker terminator.
   */
  predicate Written(items: seq<Item>, pos: nat, models: seq<LanguageModel>, terminator: int)
    decreases |models|
  {
    if models == [] then pos < |items| && items[pos] == Int(terminator)
    else
      Storable(models[0]) && HoldsAt(items, pos, EncodeModel(models[0]))
      && Written(items, pos + |EncodeModel(models[0])|, models[1..], terminator)
  }

  /** The encoding of a list of storable models, followed by a marker, is written in the sense of Written. */
  lemma {:induction false} WrittenFromEncoding(models: seq<LanguageModel>, terminator: int, items: seq<Item>, pos: nat)
    requires forall m | m in models :: Storable(m)
    requires HoldsAt(items, pos, EncodeModels(models) + [Int(terminator)])
    ensures Written(items, pos, models, terminator)
    decreases |models|
  {
    if models == [] {
      assert items[pos] == (EncodeModels(models) + [Int(terminator)])[0];
    } else {
      var m, rest := models[0], models[1..];
      assert models == [m] + rest;
      ModelsHead(m, rest, terminator, items, pos);
      assert m in models;
      forall x | x in rest
        ensures Storable(x)
      {
        assert x in models;
      }
      WrittenFromEncoding(rest, terminator, items, pos + |EncodeModel(m)|);
    }
  }

  lemma {:induction false} RecordsRoundTrip(models: seq<LanguageModel>, terminator: int, items: seq<Item>, pos: nat)
    requires terminator != MoreModels
    requires Written(items, pos, models, terminator)
    ensures ReadsAs(Records(items, pos), models, pos + |EncodeModels(models)| + 1)
    decreases |models|
  {
    if models == [] {
      RecordsEnd(items, pos);
    } else {
      RecordsRoundTrip(models[1..], terminator, items, pos + |EncodeModel(models[0])|);
      RecordsCons(models, items, pos, pos + |EncodeModel(models[0])| + |EncodeModels(models[1..])| + 1);
    }
  }

  /** A stream that starts with the version, the two settings and a written list of models decodes to them. */
  lemma DecodeWritten(items: seq<Item>, p: Profile, terminator: int)
    requires terminator != MoreModels
    requires |items| >= 3 && items[0] == Int(Version)
    requires items[1] == Int(p.maximumSizeOfDistribution) && items[2] == Int(p.maxNGramLength)
    requires Written(items, 3, p.models, terminator)
    ensures Decode(items) == Success(Decoded(p, 4 + |EncodeModels(p.models)|))
  {
    RecordsRoundTrip(p.models, terminator, items, 3);
  }

  /** A written profile, whatever follows it, starts with its header and then a written list of its models. */
  lemma EncodingWritten(p: Profile, terminator: int, after: seq<Item>)
    requires terminator != MoreModels
    requires forall m | m in p.models :: Storable(m)
    ensures |Encode(p, terminator) + after| >= 3
    ensures (Encode(p, terminator) + after)[0] == Int(Version)
    ensures (Encode(p, terminator) + after)[1] == Int(p.maximumSizeOfDistribution)
    ensures (Encode(p, terminator) + after)[2] == Int(p.maxNGramLength)
    ensures Written(Encode(p, terminator) + after, 3, p.models, terminator)
  {
    var encoded := Encode(p, terminator);
    var items := encoded + after;
    var header := [Int(Version), Int(p.maximumSizeOfDistribution), Int(p.maxNGramLength)];
    var tail := EncodeModels(p.models) + [Int(terminator)];
    assert encoded == header + tail;
    forall k | 0 <= k < |encoded|
      ensures items[0 + k] == encoded[k]
    {
    }
    HoldsAtSplit(items, 0, header, tail);
    assert items[0] == header[0] && items[1] == header[1] && items[2] == header[2];
    WrittenFromEncoding(p.models, terminator, items, 3);
  }

  /**
   * Reading back a written profile gives the same profile, whichever value ends the list
   * of models and whatever the stream holds after it; the reader stops just after the
   * end-of-list marker.
   */
  lemma RoundTrip(p: Profile, terminator: int, after: seq<Item>)
    requires terminator != MoreModels
    requires forall m | m in p.models :: Storable(m)
    ensures Decode(Encode(p, terminator) + after) == Success(Decoded(p, |Encode(p, terminator)|))
  {
    EncodingWritten(p, terminator, after);
    DecodeWritten(Encode(p, terminator) + after, p, terminator);
  }

  // ----- Truncated streams -----

  /** items ends at some point inside part, which it follows from position pos. */
  predicate CutInside(items: seq<Item>, pos: nat, part: seq<Item>)
  {
    pos <= |items| < pos + |part| && forall k {:trigger part[k]} :: 0 <= k < |items| - pos ==> items[pos + k] == part[k]
  }

  lemma CutInsideSplit(items: seq<Item>, pos: nat, a: seq<Item>, b: seq<Item>)
    requires CutInside(items, pos, a + b)
    ensures |items| < pos + |a| ==> CutInside(items, pos, a)
    ensures |items| >= pos + |a| ==> HoldsAt(items, pos, a) && CutInside(items, pos + |a|, b)
  {
    forall k | 0 <= k < |items| - pos && k < |a|
      ensures items[pos + k] == a[k]
    {
      assert (a + b)[k] == a[k];
    }
    if |items| >= pos + |a| {
      forall k | 0 <= k < |items| - pos - |a|
        ensures items[pos + |a| + k] == b[k]
      {
        assert (a + b)[|a| + k] == b[k];
      }
    }
  }

  lemma {:induction false} PairsTruncated(events: seq<(string, int)>, items: seq<Item>, pos: nat)
    requires CutInside(items, pos, EncodePairs(events))
    ensures Pairs(items, pos, |events|) == Failure(EndOfStream)
    decreases |events|
  {
    var e := events[0];
    var pair := [Str(e.0), Int(e.1)];
    assert EncodePairs(events) == pair + EncodePairs(events[1..]);
    CutInsideSplit(items, pos, pair, EncodePairs(events[1..]));
    if |items| == pos + 1 {
      assert items[pos] == pair[0];
    } else if |items| >= pos + 2 {
      assert items[pos] == pair[0] && items[pos + 1] == pair[1];
      PairsTruncated(events[1..], items, pos + 2);
      PairsStep(items, pos, |events|, e.0, e.1);
    }
  }

  lemma RecordTruncated(m: LanguageModel, items: seq<Item>, pos: nat)
    requires CutInside(items, pos, EncodeModel(m)) && pos < |items|
    ensures Record(items, pos + 1) == Failure(EndOfStream)
  {
    var head := [Int(MoreModels), Str(m.language.iso639_2T), Str(m.language.iso639_3),
                 Int(m.features.totalNoiseCount), Int(m.features.distinctNoiseCount), Int(|m.features.events|)];
    assert EncodeModel(m) == head + EncodePairs(m.features.events);
    CutInsideSplit(items, pos, head, EncodePairs(m.features.events));
    var cut := |items| - pos;
    if cut > 1 {
      assert items[pos + 1] == head[1];
    }
    if cut > 2 {
      assert items[pos + 2] == head[2];
    }
    if cut > 3 {
      assert items[pos + 3] == head[3];
    }
    if cut > 4 {
      assert items[pos + 4] == head[4];
    }
    if cut > 5 {
      assert items[pos + 5] == head[5];
      PairsTruncated(m.features.events, items, pos + 6);
    }
  }

  /** A cut inside the list of models falls inside its first model, or after it and inside the rest. */
  lemma CutInsideModels(m: LanguageModel, rest: seq<LanguageModel>, terminator: int, items: seq<Item>, pos: nat)
    requires CutInside(items, pos, EncodeModels([m] + rest) + [Int(terminator)]) && pos < |items|
    ensures items[pos] == Int(MoreModels)
    ensures |items| < pos + |EncodeModel(m)| ==> CutInside(items, pos, EncodeModel(m))
    ensures |items| >= pos + |EncodeModel(m)| ==>
      HoldsAt(items, pos, EncodeModel(m)) && CutInside(items, pos + |EncodeModel(m)|, EncodeModels(rest) + [Int(terminator)])
  {
    var encoded := EncodeModel(m);
    assert ([m] + rest)[1..] == rest;
    assert EncodeModels([m] + rest) + [Int(terminator)] == encoded + (EncodeModels(rest) + [Int(terminator)]);
    CutInsideSplit(items, pos, encoded, EncodeModels(rest) + [Int(terminator)]);
    assert items[pos] == encoded[0];
  }

  lemma {:induction false} RecordsTruncated(models: seq<LanguageModel>, terminator: int, items: seq<Item>, pos: nat)
    requires forall m | m in models :: Storable(m)
    requires CutInside(items, pos, EncodeModels(models) + [Int(terminator)])
    ensures Records(items, pos) == Failure(EndOfStream)
    decreases |models|
  {
    if |items| > pos {
      var m, rest := models[0], models[1..];
      assert models == [m] + rest;
      CutInsideModels(m, rest, terminator, items, pos);
      var next := pos + |EncodeModel(m)|;
      if |items| < next {
        RecordTruncated(m, items, pos);
      } else {
        RecordRoundTrip(m, items, pos);
        RecordsStep(items, pos, m, next);
        RecordsTruncated(rest, terminator, items, next);
      }
    }
  }

  /** A written profile cut anywhere before its end-of-list marker fails with EndOfStream: no partial profile is read. */
  lemma Truncated(p: Profile, terminator: int, length: nat)
    requires terminator != MoreModels
    requires forall m | m in p.models :: Storable(m)
    requires length < |Encode(p, terminator)|
    ensures Decode(Encode(p, terminator)[..length]) == Failure(EndOfStream)
  {
    var encoded := Encode(p, terminator);
    var items := encoded[..length];
    var header := [Int(Version), Int(p.maximumSizeOfDistribution), Int(p.maxNGramLength)];
    var tail := EncodeModels(p.models) + [Int(terminator)];
    assert encoded == header + tail;
    if length >= 3 {
      assert items[0] == header[0] && items[1] == header[1] && items[2] == header[2];
      forall k | 0 <= k < length - 3
        ensures items[3 + k] == tail[k]
      {
        assert encoded[3 + k] == tail[k];
      }
      RecordsTruncated(p.models, terminator, items, 3);
    } else if length >= 1 {
      assert items[0] == header[0];
      if length == 2 {
        assert items[1] == header[1];
      }
    }
  }
}
