/**
 * BasicProfileFactoryBase: the settings a factory forwards to Create, Load over the
 * models an XML persister returns, and LoadBinary, which reads a binary profile through a
 * reader whose cursor advances item by item.
 *
 * The abstract Create(languageModels, maxNGramLength, maximumSizeOfDistribution,
 * occuranceNumberThreshold, onlyReadFirstNLines) that builds the identifier is left to the
 * concrete factories, so a call to it is modelled by the Creation record of its arguments.
 */
module ProfileFactory {
  import opened Wrappers
  import opened ProfileFormat

  /** A factory's settings, fixed when it is constructed. */
  datatype Factory = Factory(maxNGramLength: int, maximumSizeOfDistribution: int, occuranceNumberThreshold: int,
                             onlyReadFirstNLines: int, allowUsingMultipleThreadsForTraining: bool)

  /** The arguments handed to the abstract Create. */
  datatype Creation = Creation(languageModels: seq<LanguageModel>, maxNGramLength: int, maximumSizeOfDistribution: int,
                               occuranceNumberThreshold: int, onlyReadFirstNLines: int)

  /** An optional filter predicate; a missing one keeps every model. */
  type Filter = Option<LanguageModel -> bool>

  predicate Keeps(filter: Filter, m: LanguageModel)
  {
    filter.None? || filter.value(m)
  }

  /** The models the filter keeps, in their original order (Enumerable.Where). */
  function Where(models: seq<LanguageModel>, filter: Filter): (r: seq<LanguageModel>)
    ensures |r| <= |models|
  {
    if models == [] then []
    else
      var last := models[|models| - 1];
      Where(models[..|models| - 1], filter) + (if Keeps(filter, last) then [last] else [])
  }

  /** One more model: it is kept after the earlier ones exactly when the filter accepts it. */
  lemma WhereSnoc(models: seq<LanguageModel>, m: LanguageModel, filter: Filter)
    ensures Where(models + [m], filter) == Where(models, filter) + (if Keeps(filter, m) then [m] else [])
  {
    assert (models + [m])[..|models|] == models;
  }

  /** A model is kept exactly when it is one of the models and the filter accepts it. */
  lemma {:induction false} WhereSelects(models: seq<LanguageModel>, filter: Filter, m: LanguageModel)
    ensures m in Where(models, filter) <==> m in models && Keeps(filter, m)
    decreases |models|
  {
    if models != [] {
      var init := models[..|models| - 1];
      WhereSelects(init, filter, m);
      assert models == init + [models[|models| - 1]];
    }
  }

  /** Without a filter every model is kept. */
  lemma {:induction false} WhereKeepsAll(models: seq<LanguageModel>)
    ensures Where(models, None) == models
    decreases |models|
  {
    if models != [] {
      WhereKeepsAll(models[..|models| - 1]);
      assert models[..|models| - 1] + [models[|models| - 1]] == models;
    }
  }

  /** Create(languageModels): the factory's own four settings go with the models. */
  function Create(factory: Factory, languageModels: seq<LanguageModel>): (r: Creation)
    ensures r.languageModels == languageModels
    ensures r.maxNGramLength == factory.maxNGramLength && r.maximumSizeOfDistribution == factory.maximumSizeOfDistribution
    ensures r.occuranceNumberThreshold == factory.occuranceNumberThreshold && r.onlyReadFirstNLines == factory.onlyReadFirstNLines
  {
    Creation(languageModels, factory.maxNGramLength, factory.maximumSizeOfDistribution,
             factory.occuranceNumberThreshold, factory.onlyReadFirstNLines)
  }

  /**
   * Load(Stream): the persisted profile (what XmlProfilePersister.Load returns) is a
   * parameter.  The kept models and the two settings come from the profile; the
   * threshold and the line limit stay the factory's own.
   */
  function Load(factory: Factory, persisted: Profile, filter: Filter): (r: Creation)
    ensures r.languageModels == Where(persisted.models, filter)
    ensures r.maxNGramLength == persisted.maxNGramLength && r.maximumSizeOfDistribution == persisted.maximumSizeOfDistribution
    ensures r.occuranceNumberThreshold == factory.occuranceNumberThreshold && r.onlyReadFirstNLines == factory.onlyReadFirstNLines
  {
    Creation(Where(persisted.models, filter), persisted.maxNGramLength, persisted.maximumSizeOfDistribution,
             factory.occuranceNumberThreshold, factory.onlyReadFirstNLines)
  }

  /** What LoadBinary yields for a stream: the decoded profile, loaded as Load loads a persisted one. */
  function LoadedFrom(factory: Factory, items: seq<Item>, filter: Filter): Result<Creation, LoadError>
  {
    var profile :- Decode(items);
    Success(Load(factory, profile.value, filter))
  }

  /** r is what reading d yields, and the reader then stands at position (on success). */
  predicate Mirrors<T(==)>(r: Result<T, LoadError>, d: Result<Decoded<T>, LoadError>, position: nat)
  {
    if d.Success? then r == Success(d.value.value) && position == d.value.next else r == Failure(d.error)
  }

  /** The reader: a cursor over the items of a stream. */
  class ItemReader {
    const items: seq<Item>
    var position: nat

    constructor(items: seq<Item>)
      ensures this.items == items && position == 0
    {
      this.items := items;
      position := 0;
    }

    method ReadInt32() returns (r: Result<int, LoadError>)
      modifies this
      ensures Mirrors(r, IntAt(items, old(position)), position)
      ensures r.Failure? ==> position == old(position)
    {
      if position >= |items| {
        return Failure(EndOfStream);
      }
      match items[position]
      case Str(_) =>
        return Failure(UnexpectedItem);
      case Int(value) =>
        position := position + 1;
        return Success(value);
    }

    method ReadString() returns (r: Result<string, LoadError>)
      modifies this
      ensures Mirrors(r, StrAt(items, old(position)), position)
      ensures r.Failure? ==> position == old(position)
    {
      if position >= |items| {
        return Failure(EndOfStream);
      }
      match items[position]
      case Int(_) =>
        return Failure(UnexpectedItem);
      case Str(text) =>
        position := position + 1;
        return Success(text);
    }
  }

  /** The loop over the count pairs of one model; each pair becomes one event of the distribution. */
  method ReadEvents(br: ItemReader, count: int) returns (r: Result<seq<(string, int)>, LoadError>)
    modifies br
    ensures Mirrors(r, Pairs(br.items, old(br.position), count), br.position)
  {
    ghost var start := br.position;
    var events: seq<(string, int)> := [];
    var i := 0;
    PrependNothing(Pairs(br.items, start, count));
    while i < count
      invariant Pairs(br.items, start, count) == Prepend(events, Pairs(br.items, br.position, count - i))
      decreases count - i
    {
      ghost var here := br.position;
      PairRead(br.items, start, count, here, count - i, events);
      var text :- br.ReadString();
      var cnt :- br.ReadInt32();
      PairTaken(br.items, start, count, here, count - i, events, text, cnt);
      events := events + [(text, cnt)];
      i := i + 1;
    }
    PairsDone(br.items, start, count, br.position, count - i, events);
    return Success(events);
  }

  /** A pair that cannot be read at here is the failure of all count pairs read from start. */
  lemma PairRead(items: seq<Item>, start: nat, count: int, here: nat, left: int, events: seq<(string, int)>)
    requires left > 0 && Pairs(items, start, count) == Prepend(events, Pairs(items, here, left))
    ensures StrAt(items, here).Failure? ==> Pairs(items, start, count) == Failure(StrAt(items, here).error)
    ensures StrAt(items, here).Success? && IntAt(items, here + 1).Failure?
      ==> Pairs(items, start, count) == Failure(IntAt(items, here + 1).error)
  {
  }

  /** A pair read at here joins the events read so far. */
  lemma PairTaken(items: seq<Item>, start: nat, count: int, here: nat, left: int, events: seq<(string, int)>,
                  text: string, cnt: int)
    requires left > 0 && Pairs(items, start, count) == Prepend(events, Pairs(items, here, left))
    requires here + 1 < |items| && items[here] == Str(text) && items[here + 1] == Int(cnt)
    ensures Pairs(items, start, count) == Prepend(events + [(text, cnt)], Pairs(items, here + 2, left - 1))
  {
    PairsStep(items, here, left, text, cnt);
    PrependAppend(events, [(text, cnt)], Pairs(items, here + 2, left - 1));
  }

  /** Once no pair is left, the events read are all count pairs. */
  lemma PairsDone(items: seq<Item>, start: nat, count: int, here: nat, left: int, events: seq<(string, int)>)
    requires left <= 0 && Pairs(items, start, count) == Prepend(events, Pairs(items, here, left))
    ensures Pairs(items, start, count) == Success(Decoded(events, here))
  {
    assert events + [] == events;
  }

  /**
   * One language model, read after its continuation marker: the two language codes, the
   * noise counters and the number of events, then the events; the noise counters are
   * applied once all events are in, and the metadata dictionary is empty.
   */
  method ReadLanguageModel(br: ItemReader) returns (r: Result<LanguageModel, LoadError>)
    modifies br
    ensures Mirrors(r, Record(br.items, old(br.position)), br.position)
  {
    var name2 :- br.ReadString();
    var name3 :- br.ReadString();
    var totalNoiseCount :- br.ReadInt32();
    var distinctNoiseCount :- br.ReadInt32();
    var count :- br.ReadInt32();
    var language := LanguageInfo(name2, name3, None, None);
    var events :- ReadEvents(br, count);
    // AddNoise on a distribution that has no noise yet
    var features := Distribution(events, totalNoiseCount, distinctNoiseCount);
    return Success(LanguageModel(features, language, map[]));
  }

  /** r is the filtered list of models d reads, or d's failure. */
  predicate FilteredMirror(r: Result<seq<LanguageModel>, LoadError>, d: Result<Decoded<seq<LanguageModel>>, LoadError>, filter: Filter)
  {
    if d.Success? then r == Success(Where(d.value.value, filter)) else r == Failure(d.error)
  }

  /**
   * The while (true) loop of LoadBinary: one language model for every continuation
   * marker 1; each model the filter keeps is appended to the list, which is complete
   * once a marker other than 1 is read.
   */
  method ReadModels(br: ItemReader, keep: LanguageModel -> bool, ghost filter: Filter)
    returns (r: Result<seq<LanguageModel>, LoadError>)
    requires br.position <= |br.items|
    requires forall m :: keep(m) == Keeps(filter, m)
    modifies br
    ensures FilteredMirror(r, Records(br.items, old(br.position)), filter)
  {
    ghost var start := br.position;
    var l: seq<LanguageModel> := [];
    ghost var read: seq<LanguageModel> := [];
    PrependNothing(Records(br.items, start));
    while true
      invariant start <= br.position <= |br.items|
      invariant Records(br.items, start) == Prepend(read, Records(br.items, br.position))
      invariant l == Where(read, filter)
      decreases |br.items| - br.position
    {
      ghost var here := br.position;
      MarkerRead(br.items, start, here, read);
      var marker :- br.ReadInt32();
      if marker != MoreModels {
        break;
      }
      ModelRead(br.items, start, here, read);
      var lm :- ReadLanguageModel(br);
      ModelTaken(br.items, start, here, read, lm, br.position);
      WhereSnoc(read, lm, filter);
      read := read + [lm];
      if keep(lm) {
        l := l + [lm];
      }
    }
    return Success(l);
  }

  /** The marker at here decides the list read from start: a failure to read it, or its end. */
  lemma MarkerRead(items: seq<Item>, start: nat, here: nat, read: seq<LanguageModel>)
    requires Records(items, start) == Prepend(read, Records(items, here))
    ensures IntAt(items, here).Failure? ==> Records(items, start) == Failure(IntAt(items, here).error)
    ensures IntAt(items, here).Success? && IntAt(items, here).value.value != MoreModels
      ==> Records(items, start) == Success(Decoded(read, here + 1))
  {
    if IntAt(items, here).Success? && IntAt(items, here).value.value != MoreModels {
      RecordsEnd(items, here);
      assert read + [] == read;
    }
  }

  /** After a marker 1 at here, a model that cannot be read is the failure of the whole list. */
  lemma ModelRead(items: seq<Item>, start: nat, here: nat, read: seq<LanguageModel>)
    requires Records(items, start) == Prepend(read, Records(items, here))
    requires here < |items| && items[here] == Int(MoreModels)
    ensures Record(items, here + 1).Failure? ==> Records(items, start) == Failure(Record(items, here + 1).error)
  {
  }

  /** A model read after a marker 1 joins the models read so far. */
  lemma ModelTaken(items: seq<Item>, start: nat, here: nat, read: seq<LanguageModel>, m: LanguageModel, next: nat)
    requires Records(items, start) == Prepend(read, Records(items, here))
    requires here < |items| && items[here] == Int(MoreModels)
    requires Record(items, here + 1) == Success(Decoded(m, next))
    ensures Records(items, start) == Prepend(read + [m], Records(items, next))
  {
    RecordsStep(items, here, m, next);
    PrependAppend(read, [m], Records(items, next));
  }

  /**
   * LoadBinary: the filter defaults to keeping every model; the version marker must be 1;
   * then maximumSizeOfDistribution and maxNGramLength are read, then the models, and the
   * kept models go to Create with the stream's two settings and the factory's threshold
   * and line limit.
   */
  method LoadBinary(factory: Factory, inputStream: seq<Item>, filterPredicate: Filter)
    returns (r: Result<Creation, LoadError>)
    ensures r == LoadedFrom(factory, inputStream, filterPredicate)
  {
    var keep := if filterPredicate.Some? then filterPredicate.value else (_ => true);
    var br := new ItemReader(inputStream);
    var version :- br.ReadInt32();
    if version != Version {
      return Failure(InvalidData);
    }
    var maximumSizeOfDistribution :- br.ReadInt32();
    var maxNGramLength :- br.ReadInt32();
    var l :- ReadModels(br, keep, filterPredicate);
    return Success(Creation(l, maxNGramLength, maximumSizeOfDistribution,
                            factory.occuranceNumberThreshold, factory.onlyReadFirstNLines));
  }

  /** A stream whose first Int32 is not 1 fails with InvalidData and yields no identifier. */
  lemma VersionRejected(factory: Factory, items: seq<Item>, filter: Filter)
    requires items != [] && items[0].Int? && items[0].value != Version
    ensures LoadedFrom(factory, items, filter) == Failure(InvalidData)
  {
    VersionCheckedFirst(items);
  }

  /**
   * LoadBinary of a written profile gives what Load gives for that profile: the same
   * models, filtered in order, and the profile's own settings.
   */
  lemma BinaryLoadsAsPersisted(factory: Factory, p: Profile, terminator: int, after: seq<Item>, filter: Filter)
    requires terminator != MoreModels
    requires forall m | m in p.models :: Storable(m)
    ensures LoadedFrom(factory, Encode(p, terminator) + after, filter) == Success(Load(factory, p, filter))
  {
    RoundTrip(p, terminator, after);
  }

  /** Without a filter, LoadBinary of a written profile hands every model to Create with the profile's settings. */
  lemma BinaryLoadsEveryModel(factory: Factory, p: Profile, terminator: int)
    requires terminator != MoreModels
    requires forall m | m in p.models :: Storable(m)
    ensures LoadedFrom(factory, Encode(p, terminator), None)
      == Success(Create(factory.(maxNGramLength := p.maxNGramLength, maximumSizeOfDistribution := p.maximumSizeOfDistribution), p.models))
  {
    BinaryLoadsAsPersisted(factory, p, terminator, [], None);
    assert Encode(p, terminator) + [] == Encode(p, terminator);
    WhereKeepsAll(p.models);
  }

  /** LoadBinary of a written profile cut before its end-of-list marker fails: nothing reaches Create. */
  lemma TruncatedRejected(factory: Factory, p: Profile, terminator: int, length: nat, filter: Filter)
    requires terminator != MoreModels
    requires forall m | m in p.models :: Storable(m)
    requires length < |Encode(p, terminator)|
    ensures LoadedFrom(factory, Encode(p, terminator)[..length], filter) == Failure(EndOfStream)
  {
    Truncated(p, terminator, length);
  }
}
